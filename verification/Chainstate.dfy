// What whole-chain validation establishes: the shape of a valid chain, what its headers commit
// to, and how the replayed unspent-output set relates to the validated one.
module Chainstate {
  import opened Params
  import opened Ledger
  import opened Validation
  import opened Connect
  import opened Sorting
  import Merkle
  import MedianTime

  // ---- a header commits to its body ----

  ghost function TxidLeaf(net: Network): Hash -> bool {
    (x: Hash) => exists t :: net.txid(t) == x
  }

  lemma TxidsAreLeaves(net: Network, txs: seq<Transaction>)
    requires net.Ideal()
    ensures Merkle.LeavesApart(net.pair, TxidLeaf(net))
    ensures Merkle.AllNodes(net.pair, TxidLeaf(net), net.Txids(txs), 0)
  {
  }

  lemma {:induction false} RootOfManyIsPair(pair: Merkle.Pairing, layer: seq<Hash>)
    requires |layer| > 1
    ensures exists a, b :: Merkle.Root(pair, layer) == pair(a, b)
    decreases |layer|
  {
    var next := Merkle.NextLayer(pair, layer);
    assert Merkle.Root(pair, layer) == Merkle.Root(pair, next);
    if |next| > 1 {
      RootOfManyIsPair(pair, next);
    } else {
      assert next[0] == pair(layer[0], Merkle.PartnerOf(layer, 0));
    }
  }

  // Blocks with the same hash whose bodies match their Merkle roots and repeat no txid have
  // the same transactions, witnesses aside.
  lemma HeaderCommitsToBody(net: Network, b1: Block, b2: Block)
    requires net.Ideal() && net.BlockHash(b1) == net.BlockHash(b2)
    requires b1.header.merkleRoot == net.MerkleRoot(b1.transactions)
    requires b2.header.merkleRoot == net.MerkleRoot(b2.transactions)
    requires Distinct(net.Txids(b1.transactions)) && Distinct(net.Txids(b2.transactions))
    ensures |b1.transactions| == |b2.transactions|
    ensures forall i :: 0 <= i < |b1.transactions| ==> b1.transactions[i].Stripped() == b2.transactions[i].Stripped()
  {
    var ids1, ids2 := net.Txids(b1.transactions), net.Txids(b2.transactions);
    TxidsAreLeaves(net, b1.transactions);
    TxidsAreLeaves(net, b2.transactions);
    Merkle.RootCommits(net.pair, TxidLeaf(net), ids1, ids2, 0);
    forall i | 0 <= i < |ids1|
      ensures b1.transactions[i].Stripped() == b2.transactions[i].Stripped()
    {
      assert net.txid(b1.transactions[i]) == ids1[i] == ids2[i] == net.txid(b2.transactions[i]);
    }
  }

  // Validation establishes that premise: it repeats no txid, the coinbase's included.
  lemma {:induction false} ValidTxidsAreDistinct(net: Network, txs: seq<Transaction>, count: nat, u: Utxos, height: int,
                                                 now: int)
    requires 1 <= count <= |txs| && ValidateTxs(net, txs, count, u, height, now).Ok?
    ensures forall i, j :: 1 <= i < j < count ==> net.txid(txs[i]) != net.txid(txs[j])
  {
    hide ValidateRegular, ApplyRegular;
    if count > 1 {
      ValidTxidsAreDistinct(net, txs, count - 1, u, height, now);
      SeenTxids(net, txs, count - 1, u, height, now);
    }
  }

  lemma ValidBlockIsCommitted(net: Network, b: Block, prefix: seq<Block>, u: Utxos, now: int)
    requires prefix != [] && ValidateBlock(net, b, prefix, u, now).Ok?
    ensures b.header.merkleRoot == net.MerkleRoot(b.transactions)
    ensures Distinct(net.Txids(b.transactions))
  {
    hide ValidateNext, ValidateCoinbase, NextSubsidy, ApplyCoinbase, BitsError, ProofOfWorkError;
    ValidTxidsAreDistinct(net, b.transactions, |b.transactions|, u, b.header.height, now);
    SeenTxids(net, b.transactions, |b.transactions|, u, b.header.height, now);
  }

  // ---- what a header commits to beyond the txids ----

  ghost predicate CarriesWitness(b: Block) {
    exists i :: 1 <= i < |b.transactions| && b.transactions[i].HasWitness()
  }

  lemma {:induction false} CommitmentOfOutputs(net: Network, outputs: seq<TxOutput>, i: nat)
    requires i < |outputs| && net.commitmentIn(outputs[i].script) != []
    requires forall j :: i < j < |outputs| ==> net.commitmentIn(outputs[j].script) == []
    ensures CoinbaseCommitment(net, outputs) == net.commitmentIn(outputs[i].script)
    decreases |outputs|
  {
    if i < |outputs| - 1 {
      CommitmentOfOutputs(net, outputs[..|outputs| - 1], i);
    }
  }

  // A valid block with witnesses commits to them: the last commitment among the outputs of its
  // coinbase is that of its witness root.
  lemma ValidBlockCommitsToWitnesses(net: Network, b: Block, prefix: seq<Block>, u: Utxos, now: int)
    requires prefix != [] && ValidateBlock(net, b, prefix, u, now).Ok? && CarriesWitness(b)
    ensures var found := CoinbaseCommitment(net, b.transactions[0].outputs);
            found != [] && found[0] == net.pair(Merkle.Root(net.pair, WitnessLeaves(net, b.transactions)), ZERO_HASH)
  {
    hide ValidateTxs, ValidateCoinbase, NextSubsidy, ApplyCoinbase, BitsError, ProofOfWorkError, CoinbaseCommitment;
    hide Merkle.Root, WitnessLeaves, Network.MerkleRoot, Network.BlockWeight, Transaction.HasWitness;
  }

  // Valid blocks with one hash and with witnesses have the same witness root.
  lemma HeaderCommitsToWitnessRoot(net: Network, b1: Block, p1: seq<Block>, u1: Utxos, b2: Block, p2: seq<Block>,
                                   u2: Utxos, now: int)
    requires net.Ideal() && net.BlockHash(b1) == net.BlockHash(b2)
    requires p1 != [] && ValidateBlock(net, b1, p1, u1, now).Ok? && CarriesWitness(b1)
    requires p2 != [] && ValidateBlock(net, b2, p2, u2, now).Ok? && CarriesWitness(b2)
    ensures |b1.transactions| == |b2.transactions|
    ensures forall i :: 0 <= i < |b1.transactions| ==> b1.transactions[i].Stripped() == b2.transactions[i].Stripped()
    ensures Merkle.Root(net.pair, WitnessLeaves(net, b1.transactions))
         == Merkle.Root(net.pair, WitnessLeaves(net, b2.transactions))
  {
    ValidBlockIsCommitted(net, b1, p1, u1, now);
    ValidBlockIsCommitted(net, b2, p2, u2, now);
    ValidBlockCommitsToWitnesses(net, b1, p1, u1, now);
    ValidBlockCommitsToWitnesses(net, b2, p2, u2, now);
    hide ValidateBlock, CoinbaseCommitment, WitnessLeaves, Merkle.Root, Network.MerkleRoot, CarriesWitness, Distinct;
    HeaderCommitsToBody(net, b1, b2);
    StrippedKeepsTheRest(b1.transactions[0], b2.transactions[0]);
    hide Transaction.Stripped;
  }

  // What the witness hashes need besides: they commit to whole transactions, and none of them,
  // nor the zero that stands for the coinbase, is a pairing or another's.
  ghost predicate WitnessesApart(net: Network) {
    && (forall a, b :: net.wtxid(a) == net.wtxid(b) ==> a == b)
    && (forall t, a, b :: net.wtxid(t) != net.pair(a, b))
    && (forall t :: net.wtxid(t) != ZERO_HASH)
    && (forall a, b :: net.pair(a, b) != ZERO_HASH)
  }

  ghost function WitnessLeaf(net: Network): Hash -> bool {
    (x: Hash) => x == ZERO_HASH || exists t :: net.wtxid(t) == x
  }

  lemma WitnessLeavesAreLayer(net: Network, b: Block)
    requires net.Ideal() && WitnessesApart(net) && Distinct(net.Txids(b.transactions))
    ensures Merkle.LeavesApart(net.pair, WitnessLeaf(net))
    ensures Merkle.IsLayer(net.pair, WitnessLeaf(net), WitnessLeaves(net, b.transactions), 0)
  {
    var txs, leaves := b.transactions, WitnessLeaves(net, b.transactions);
    forall i, j | 0 <= i < j < |leaves|
      ensures leaves[i] != leaves[j]
    {
      assert leaves[j] == net.wtxid(txs[j]);
      if i > 0 {
        assert leaves[i] == net.wtxid(txs[i]);
        assert net.Txids(txs)[i] != net.Txids(txs)[j];
      }
    }
    forall i | 0 <= i < |leaves|
      ensures Merkle.IsNode(net.pair, WitnessLeaf(net), leaves[i], 0)
    {
      assert i > 0 ==> leaves[i] == net.wtxid(txs[i]);
    }
  }

  // So they are the same block, the coinbase's own witness aside.
  lemma HeaderCommitsToWitnesses(net: Network, b1: Block, p1: seq<Block>, u1: Utxos, b2: Block, p2: seq<Block>,
                                 u2: Utxos, now: int)
    requires net.Ideal() && WitnessesApart(net) && net.BlockHash(b1) == net.BlockHash(b2)
    requires p1 != [] && ValidateBlock(net, b1, p1, u1, now).Ok? && CarriesWitness(b1)
    requires p2 != [] && ValidateBlock(net, b2, p2, u2, now).Ok? && CarriesWitness(b2)
    ensures b1.header == b2.header && b1.transactions[1..] == b2.transactions[1..]
    ensures b1.transactions[0].Stripped() == b2.transactions[0].Stripped()
  {
    ValidBlockIsCommitted(net, b1, p1, u1, now);
    ValidBlockIsCommitted(net, b2, p2, u2, now);
    HeaderCommitsToWitnessRoot(net, b1, p1, u1, b2, p2, u2, now);
    hide ValidateBlock, Merkle.Root, Network.MerkleRoot, CarriesWitness, Transaction.Stripped, Distinct;
    WitnessLeavesAreLayer(net, b1);
    WitnessLeavesAreLayer(net, b2);
    hide Merkle.IsLayer, Merkle.LeavesApart;
    Merkle.RootCommits(net.pair, WitnessLeaf(net), WitnessLeaves(net, b1.transactions),
                       WitnessLeaves(net, b2.transactions), 0);
    SameLeavesSameTxs(net, b1.transactions, b2.transactions);
  }

  lemma SameLeavesSameTxs(net: Network, s: seq<Transaction>, t: seq<Transaction>)
    requires WitnessesApart(net) && s != [] && |s| == |t| && WitnessLeaves(net, s) == WitnessLeaves(net, t)
    ensures s[1..] == t[1..]
  {
    forall i | 1 <= i < |s|
      ensures s[i] == t[i]
    {
      assert net.wtxid(s[i]) == WitnessLeaves(net, s)[i] == WitnessLeaves(net, t)[i] == net.wtxid(t[i]);
    }
  }

  // ---- the shape of a valid chain ----

  ghost predicate Linked(net: Network, blocks: seq<Block>) {
    forall i :: 0 < i < |blocks| ==> blocks[i].header.previousHash == net.BlockHash(blocks[i - 1])
  }

  ghost predicate Worked(net: Network, b: Block) {
    ProofOfWorkError(net, b.header).None?
  }

  lemma ValidBlockExtends(net: Network, b: Block, prefix: seq<Block>, u: Utxos, now: int)
    requires prefix != [] && ValidateBlock(net, b, prefix, u, now).Ok?
    ensures b.header.height == prefix[|prefix| - 1].header.height + 1
    ensures b.header.previousHash == net.BlockHash(prefix[|prefix| - 1])
    ensures Worked(net, b)
  {
  }

  lemma {:induction false} ValidChainShape(net: Network, blocks: seq<Block>, now: int)
    requires IsValidChain(net, blocks, now)
    ensures blocks != [] && net.BlockHash(blocks[0]) == net.BlockHash(net.Genesis())
    ensures Numbered(blocks) && Linked(net, blocks)
    ensures forall b :: b in blocks ==> Worked(net, b)
    decreases |blocks|
  {
    hide ValidateBlock;
    if |blocks| > 1 {
      var prefix, last := blocks[..|blocks| - 1], blocks[|blocks| - 1];
      assert blocks == prefix + [last];
      ValidChainShape(net, prefix, now);
      ValidBlockExtends(net, last, prefix, ValidateChain(net, prefix, now).value, now);
    }
  }

  // A valid chain opens with the genesis coinbase and nothing else.
  lemma GenesisIsSingle(net: Network, b: Block)
    requires net.Ideal() && GenesisError(net, b).None?
    ensures |b.transactions| == 1
    ensures b.transactions[0].IsCoinbase() == net.GenesisCoinbase().IsCoinbase()
    ensures b.transactions[0].outputs == net.allocation
  {
    var genesis := net.Genesis();
    assert b.header == genesis.header;
    assert net.Txids(genesis.transactions) == [net.txid(net.GenesisCoinbase())];
    var ids := net.Txids(b.transactions);
    if |b.transactions| > 1 {
      RootOfManyIsPair(net.pair, ids);
    }
    assert net.txid(b.transactions[0]) == net.txid(net.GenesisCoinbase());
    StrippedKeepsTheRest(b.transactions[0], net.GenesisCoinbase());
  }

  lemma StrippedKeepsTheRest(a: Transaction, b: Transaction)
    requires a.Stripped() == b.Stripped()
    ensures a.outputs == b.outputs && a.locktime == b.locktime && |a.inputs| == |b.inputs|
    ensures forall i :: 0 <= i < |a.inputs| ==> a.inputs[i].prevout == b.inputs[i].prevout
    ensures a.IsCoinbase() == b.IsCoinbase()
  {
    forall i | 0 <= i < |a.inputs|
      ensures a.inputs[i].prevout == b.inputs[i].prevout && a.inputs[i].coinbase == b.inputs[i].coinbase
    {
      assert a.Stripped().inputs[i] == b.Stripped().inputs[i];
    }
  }

  // ---- replay against validation ----

  lemma GenesisReplays(net: Network, b: Block)
    requires net.Ideal() && net.genesisMessage != "" && GenesisError(net, b).None?
    ensures Replay(net, [b]) == ApplyCoinbase(net, b.transactions[0], map[], 0)
  {
    GenesisIsSingle(net, b);
    assert [b][..0] == [];
    assert ConnectTxs(net, b.transactions, 1, map[], 0) ==
           ApplyTx(net, b.transactions[0], ConnectTxs(net, b.transactions, 0, map[], 0), 0);
  }

  // The incrementally kept set never holds a coin that validation of the same chain does
  // not hold; and they are equal when no block spends its own coinbase.
  lemma {:induction false} ReplayIsWithinValidated(net: Network, blocks: seq<Block>, now: int)
    requires net.Ideal() && net.genesisMessage != "" && IsValidChain(net, blocks, now)
    ensures Within(Replay(net, blocks), ValidateChain(net, blocks, now).value)
    ensures (forall b :: b in blocks[1..] ==> !SpendsOwnCoinbase(net, b)) ==>
              Replay(net, blocks) == ValidateChain(net, blocks, now).value
    decreases |blocks|
  {
    hide ValidateBlock, ConnectBlock, GenesisError, ApplyCoinbase, Network.Ideal, SpendsOwnCoinbase;
    if |blocks| == 1 {
      GenesisReplays(net, blocks[0]);
      assert blocks == [blocks[0]];
    } else {
      var prefix, last := blocks[..|blocks| - 1], blocks[|blocks| - 1];
      assert blocks[1..] == prefix[1..] + [last];
      ReplayIsWithinValidated(net, prefix, now);
      var v := ValidateChain(net, prefix, now).value;
      ConnectIsWithinValidated(net, last, prefix, Replay(net, prefix), v, now);
      OrdersAgreeExactly(net, last, prefix, v, now);
    }
  }

  // Extending a valid chain by a block that is valid on the replayed set gives a chain that
  // passes validation from scratch.
  lemma AppendKeepsValid(net: Network, blocks: seq<Block>, b: Block, now: int)
    requires net.Ideal() && net.genesisMessage != "" && IsValidChain(net, blocks, now)
    requires ValidateBlock(net, b, blocks, Replay(net, blocks), now).Ok?
    ensures IsValidChain(net, blocks + [b], now)
  {
    ReplayIsWithinValidated(net, blocks, now);
    BlockIsMonotone(net, b, blocks, Replay(net, blocks), ValidateChain(net, blocks, now).value, now, now);
    assert (blocks + [b])[..|blocks|] == blocks;
  }

  lemma ReplayAppend(net: Network, blocks: seq<Block>, b: Block)
    ensures Replay(net, blocks + [b]) == ConnectBlock(net, b, Replay(net, blocks))
  {
    assert (blocks + [b])[..|blocks|] == blocks;
  }

  // ---- median time past along a chain ----

  lemma ValidBlockRespectsMedian(net: Network, b: Block, prefix: seq<Block>, u: Utxos, now: int)
    requires prefix != [] && ValidateBlock(net, b, prefix, u, now).Ok? && b.header.height >= MTP_ACTIVATION_HEIGHT
    ensures b.header.timestamp > MedianTime.MedianTimePast(Timestamps(prefix))
  {
  }

  lemma {:induction false} ValidChainRespectsMedian(net: Network, blocks: seq<Block>, now: int, i: nat)
    requires IsValidChain(net, blocks, now) && MTP_ACTIVATION_HEIGHT <= i < |blocks|
    ensures MedianTime.RuleHoldsAt(Timestamps(blocks), i)
    decreases |blocks|
  {
    hide ValidateBlock, MedianTime.MedianTimePast;
    var prefix, last := blocks[..|blocks| - 1], blocks[|blocks| - 1];
    ValidChainShape(net, blocks, now);
    if i < |blocks| - 1 {
      ValidChainRespectsMedian(net, prefix, now, i);
      assert Timestamps(blocks)[..i] == Timestamps(prefix)[..i];
    } else {
      assert Timestamps(blocks)[..i] == Timestamps(prefix);
      ValidBlockRespectsMedian(net, last, prefix, ValidateChain(net, prefix, now).value, now);
    }
  }

  // Once the rule is active, the median of a valid chain's ancestors never goes back.
  lemma MedianNeverGoesBack(net: Network, blocks: seq<Block>, now: int, lo: nat, hi: nat)
    requires IsValidChain(net, blocks, now)
    requires MTP_ACTIVATION_HEIGHT <= lo <= hi <= |blocks|
    ensures MedianTime.MedianTimePast(Timestamps(blocks[..lo])) <= MedianTime.MedianTimePast(Timestamps(blocks[..hi]))
  {
    var ts := Timestamps(blocks);
    forall i | lo <= i < hi
      ensures MedianTime.RuleHoldsAt(ts, i)
    {
      ValidChainRespectsMedian(net, blocks, now, i);
    }
    MedianTime.MedianIsMonotone(ts, lo, hi);
    assert ts[..lo] == Timestamps(blocks[..lo]) && ts[..hi] == Timestamps(blocks[..hi]);
  }
}
