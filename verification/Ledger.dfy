// Transactions, blocks and the unspent-output set (netcoin/tx.py, netcoin/block.py), with the
// hashes, signature checks and sizes that the node computes elsewhere kept abstract.
module Ledger {
  import opened Params
  import Merkle
  import Emission

  type Hash = Merkle.Hash
  type Address = string
  type Amount = x: nat | x <= MAX_MONEY

  const ZERO_HASH: Hash := Merkle.ZERO_HASH

  datatype Outpoint = Outpoint(txid: Hash, vout: int)

  datatype TxOutput = TxOutput(amount: Amount, address: Address, script: string)

  datatype TxInput = TxInput(prevout: Outpoint, coinbase: string, scriptSig: string, witnessStack: seq<string>,
                             sequence: nat)

  datatype Transaction = Transaction(version: int, inputs: seq<TxInput>, outputs: seq<TxOutput>, locktime: nat) {
    predicate IsCoinbase() {
      |inputs| == 1 && inputs[0].prevout == Outpoint(ZERO_HASH, -1) && inputs[0].coinbase != ""
    }

    predicate HasWitness() {
      exists i :: 0 <= i < |inputs| && inputs[i].witnessStack != []
    }

    // The part of a transaction that its txid commits to: everything but the witnesses.
    function Stripped(): Transaction {
      this.(inputs := seq(|inputs|, i requires 0 <= i < |inputs| => inputs[i].(witnessStack := [])))
    }
  }

  // The txids of some transactions.
  function Ids(net: Network, txs: seq<Transaction>): set<Hash> {
    set tx | tx in txs :: net.txid(tx)
  }

  function OutputSum(outputs: seq<TxOutput>): nat {
    if outputs == [] then 0 else OutputSum(outputs[..|outputs| - 1]) + outputs[|outputs| - 1].amount
  }

  datatype Header = Header(version: int, previousHash: Hash, merkleRoot: Hash, timestamp: int, bits: nat, nonce: int,
                           height: int)

  datatype RawBlock = RawBlock(header: Header, transactions: seq<Transaction>)

  // A block without transactions cannot be constructed.
  type Block = b: RawBlock | b.transactions != []
    witness RawBlock(Header(1, 0, 0, 0, 0, 0, 0), [Transaction(1, [], [], 0)])

  datatype Spendable = Spendable(output: TxOutput, height: int, coinbase: bool)

  type Utxos = map<Outpoint, Spendable>

  const HEADER_BYTES := 80

  // Bytes of a serialized count.
  function VarintLength(count: nat): nat {
    if count < 0xFD then 1 else if count <= 0xFFFF then 3 else if count <= 0xFFFF_FFFF then 5 else 9
  }

  // What a block weighs besides its transactions.
  function BlockOverhead(count: nat): nat {
    4 * (HEADER_BYTES + VarintLength(count))
  }

  // What the node takes from elsewhere: hashes, signature checks, sizes and the genesis
  // parameters.
  datatype Network = Network(
    txid: Transaction -> Hash,
    wtxid: Transaction -> Hash,
    headerHash: Header -> Hash,
    pair: Merkle.Pairing,
    draws: Emission.Draws,
    verifyInput: (Transaction, nat, Spendable) -> bool,
    commitmentIn: string -> seq<Hash>,
    normalizedName: string -> string,
    validAddress: Address -> bool,
    coinbaseText: (int, nat) -> string,
    commitmentScript: Hash -> string,
    relayPolicy: (Transaction, seq<Transaction>, Utxos, int, int) -> (set<Hash>, bool),
    txWeight: Transaction -> nat,
    checkpoints: map<int, Hash>,
    allocation: seq<TxOutput>,
    genesisTimestamp: int,
    genesisNonce: int,
    genesisMessage: string)
  {
    function BlockHash(b: Block): Hash {
      headerHash(b.header)
    }

    function Txids(txs: seq<Transaction>): (ids: seq<Hash>)
      ensures |ids| == |txs|
      ensures forall i :: 0 <= i < |txs| ==> ids[i] == txid(txs[i])
    {
      seq<Hash>(|txs|, i requires 0 <= i < |txs| => txid(txs[i]))
    }

    function MerkleRoot(txs: seq<Transaction>): Hash {
      Merkle.Root(pair, Txids(txs))
    }

    function GenesisCoinbase(): Transaction {
      Transaction(1, [TxInput(Outpoint(ZERO_HASH, -1), genesisMessage, "", [], SEQUENCE_FINAL)], allocation, 0)
    }

    function Genesis(): Block {
      var coinbase := GenesisCoinbase();
      RawBlock(Header(1, ZERO_HASH, MerkleRoot([coinbase]), genesisTimestamp, INITIAL_BITS, genesisNonce, 0),
               [coinbase])
    }

    function TotalWeight(txs: seq<Transaction>): nat {
      if txs == [] then 0 else TotalWeight(txs[..|txs| - 1]) + txWeight(txs[|txs| - 1])
    }

    // Header and transaction count have no witness part, so each of their bytes weighs four.
    function BlockWeight(b: Block): nat {
      BlockOverhead(|b.transactions|) + TotalWeight(b.transactions)
    }

    // The hashing assumptions: txids commit to everything but witnesses, header hashes to
    // headers, pairings to their parts; no header hashes to zero; no txid is also a pairing;
    // no transaction spends an output of its own txid.
    ghost predicate Ideal() {
      && (forall a, b :: txid(a) == txid(b) ==> a.Stripped() == b.Stripped())
      && (forall a, b :: headerHash(a) == headerHash(b) ==> a == b)
      && (forall h :: headerHash(h) != ZERO_HASH)
      && Merkle.CollisionFree(pair)
      && (forall t, a, b :: txid(t) != pair(a, b))
      && (forall t: Transaction, i :: 0 <= i < |t.inputs| ==> t.inputs[i].prevout.txid != txid(t))
    }
  }

  lemma {:induction false} WeightPrepend(net: Network, tx: Transaction, txs: seq<Transaction>)
    ensures net.TotalWeight([tx] + txs) == net.txWeight(tx) + net.TotalWeight(txs)
    decreases |txs|
  {
    if txs == [] {
      assert ([tx] + txs)[..0] == [];
    } else {
      var n := |txs| - 1;
      WeightPrepend(net, tx, txs[..n]);
      assert ([tx] + txs)[..|txs|] == [tx] + txs[..n];
    }
  }

  lemma WeightAppend(net: Network, txs: seq<Transaction>, tx: Transaction)
    ensures net.TotalWeight(txs + [tx]) == net.TotalWeight(txs) + net.txWeight(tx)
  {
    assert (txs + [tx])[..|txs|] == txs;
  }

  // ---- the unspent-output set ----

  // The entries that the first `count` outputs of a transaction create; zero amounts create
  // none.
  function Created(id: Hash, outputs: seq<TxOutput>, count: nat, height: int, coinbase: bool): Utxos
    requires count <= |outputs|
  {
    if count == 0 then map[]
    else
      var earlier := Created(id, outputs, count - 1, height, coinbase);
      if outputs[count - 1].amount > 0 then
        earlier[Outpoint(id, count - 1) := Spendable(outputs[count - 1], height, coinbase)]
      else earlier
  }

  function CreatedBy(net: Network, tx: Transaction, height: int, coinbase: bool): Utxos {
    Created(net.txid(tx), tx.outputs, |tx.outputs|, height, coinbase)
  }

  // Which coins those are.
  lemma {:induction false} CreatedShape(id: Hash, outputs: seq<TxOutput>, count: nat, height: int, coinbase: bool)
    requires count <= |outputs|
    ensures var u := Created(id, outputs, count, height, coinbase);
            && (forall op :: op in u <==> op.txid == id && 0 <= op.vout < count && outputs[op.vout].amount > 0)
            && (forall op :: op in u ==> u[op] == Spendable(outputs[op.vout], height, coinbase))
  {
    if count > 0 {
      CreatedShape(id, outputs, count - 1, height, coinbase);
    }
  }

  lemma CreatedByShape(net: Network, tx: Transaction, height: int, coinbase: bool)
    ensures var u := CreatedBy(net, tx, height, coinbase);
            && (forall op :: op in u <==>
                  op.txid == net.txid(tx) && 0 <= op.vout < |tx.outputs| && tx.outputs[op.vout].amount > 0)
            && (forall op :: op in u ==> u[op] == Spendable(tx.outputs[op.vout], height, coinbase))
  {
    CreatedShape(net.txid(tx), tx.outputs, |tx.outputs|, height, coinbase);
  }

  // The coins of the first `count` outputs of a transaction, for loops that create them one by
  // one.
  function Arrivals(net: Network, tx: Transaction, count: nat, height: int, coinbase: bool): Utxos
    requires count <= |tx.outputs|
  {
    Created(net.txid(tx), tx.outputs, count, height, coinbase)
  }

  lemma ArrivalsFrame(net: Network, tx: Transaction, u: Utxos, height: int, coinbase: bool)
    ensures u + Arrivals(net, tx, 0, height, coinbase) == u
    ensures Arrivals(net, tx, |tx.outputs|, height, coinbase) == CreatedBy(net, tx, height, coinbase)
  {
  }

  lemma MergeNext(net: Network, tx: Transaction, u: Utxos, k: nat, height: int, coinbase: bool)
    requires k < |tx.outputs|
    ensures var merged, coin := u + Arrivals(net, tx, k, height, coinbase), Spendable(tx.outputs[k], height, coinbase);
            u + Arrivals(net, tx, k + 1, height, coinbase) ==
            if tx.outputs[k].amount > 0 then merged[Outpoint(net.txid(tx), k) := coin] else merged
  {
  }

  // The outpoints that the first `count` inputs spend.
  function Spent(tx: Transaction, count: nat): (s: set<Outpoint>)
    requires count <= |tx.inputs|
    ensures forall op :: op in s <==> exists i :: 0 <= i < count && tx.inputs[i].prevout == op
  {
    set i | 0 <= i < count :: tx.inputs[i].prevout
  }

  function SpentBy(tx: Transaction): set<Outpoint> {
    Spent(tx, |tx.inputs|)
  }

  function ApplyRegular(net: Network, tx: Transaction, u: Utxos, height: int): Utxos {
    (u - SpentBy(tx)) + CreatedBy(net, tx, height, false)
  }

  function ApplyCoinbase(net: Network, tx: Transaction, u: Utxos, height: int): Utxos {
    u + CreatedBy(net, tx, height, true)
  }

  // One transaction as block connection applies it: a coinbase spends nothing.
  function ApplyTx(net: Network, tx: Transaction, u: Utxos, height: int): Utxos {
    if tx.IsCoinbase() then ApplyCoinbase(net, tx, u, height) else ApplyRegular(net, tx, u, height)
  }

  // Connecting the first `count` transactions of a block, in block order.
  function ConnectTxs(net: Network, txs: seq<Transaction>, count: nat, u: Utxos, height: int): Utxos
    requires count <= |txs|
  {
    if count == 0 then u
    else ApplyTx(net, txs[count - 1], ConnectTxs(net, txs, count - 1, u, height), height)
  }

  function ConnectBlock(net: Network, b: Block, u: Utxos): Utxos {
    ConnectTxs(net, b.transactions, |b.transactions|, u, b.header.height)
  }

  // The specification of the unspent-output set: replay every block from the first one.
  function Replay(net: Network, blocks: seq<Block>): Utxos {
    if blocks == [] then map[]
    else ConnectBlock(net, blocks[|blocks| - 1], Replay(net, blocks[..|blocks| - 1]))
  }

  // Every entry of `u` is in `v`, with the same value.
  ghost predicate Within(u: Utxos, v: Utxos) {
    forall op :: op in u ==> op in v && u[op] == v[op]
  }
}
