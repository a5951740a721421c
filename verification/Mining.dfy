// Building a block (netcoin/chain.py, netcoin/block.py, netcoin/tx.py): the coinbase, the
// header, and the search for a nonce.
module Mining {
  import opened Wrappers
  import opened Params
  import opened Ledger
  import opened Validation
  import CompactTarget
  import Merkle

  const MAX_NONCE := 0xFFFF_FFFF

  function CoinbaseFor(net: Network, height: int, miner: Address, reward: Amount, extraNonce: nat,
                       commitment: Option<Hash>): (tx: Transaction)
    ensures tx.IsCoinbase() && OutputSum(tx.outputs) == reward
  {
    var payout := if reward == 0 then [] else [TxOutput(reward, miner, "")];
    var extra := match commitment
      case None => []
      case Some(c) => [TxOutput(0, "", net.commitmentScript(c))];
    SumOfPayout(payout, extra, reward);
    Transaction(1, [TxInput(Outpoint(ZERO_HASH, -1), "NetCoin block " + net.coinbaseText(height, extraNonce), "", [],
                            SEQUENCE_FINAL)],
                payout + extra, 0)
  }

  lemma SumOfPayout(payout: seq<TxOutput>, extra: seq<TxOutput>, reward: nat)
    requires |payout| <= 1 && |extra| <= 1
    requires OutputSum(payout) == reward && (extra != [] ==> extra[0].amount == 0)
    ensures OutputSum(payout + extra) == reward
  {
    if extra == [] {
      assert payout + extra == payout;
    } else {
      assert (payout + extra)[..|payout|] == payout;
    }
  }

  // The coinbase of a block with these transactions: it carries a witness commitment exactly
  // when one of them has a witness.
  function CoinbaseOver(net: Network, height: int, miner: Address, reward: Amount, extraNonce: nat,
                        selected: seq<Transaction>): (tx: Transaction)
    ensures tx.IsCoinbase() && OutputSum(tx.outputs) == reward
  {
    var plain := CoinbaseFor(net, height, miner, reward, extraNonce, None);
    if exists i :: 0 <= i < |selected| && selected[i].HasWitness() then
      var root := Merkle.Root(net.pair, WitnessLeaves(net, [plain] + selected));
      CoinbaseFor(net, height, miner, reward, extraNonce, Some(net.pair(root, ZERO_HASH)))
    else plain
  }

  // Whatever a coinbase pays, it pays the miner.
  ghost predicate PaysOnly(tx: Transaction, a: Address) {
    forall i :: 0 <= i < |tx.outputs| && tx.outputs[i].amount > 0 ==> tx.outputs[i].address == a
  }

  lemma CoinbasePaysMiner(net: Network, height: int, miner: Address, reward: Amount, extraNonce: nat,
                          selected: seq<Transaction>)
    ensures PaysOnly(CoinbaseOver(net, height, miner, reward, extraNonce, selected), miner)
  {
    hide OutputSum, Merkle.Root, WitnessLeaves, Transaction.HasWitness;
  }

  // The first nonce from the header's own that meets its target, if any does.
  method MineHeader(net: Network, h: Header) returns (mined: Option<Header>)
    ensures mined.Some? ==>
              && mined.value == h.(nonce := mined.value.nonce) && mined.value.nonce >= h.nonce
              && ProofOfWorkError(net, mined.value).None?
              && forall n :: h.nonce <= n < mined.value.nonce ==> ProofOfWorkError(net, h.(nonce := n)).Some?
    ensures mined.None? ==> forall n :: h.nonce <= n <= MAX_NONCE ==> ProofOfWorkError(net, h.(nonce := n)).Some?
  {
    hide CompactTarget.BitsToTarget;
    var target := CompactTarget.BitsToTarget(h.bits);
    if target.Err? {
      return None;
    }
    var nonce := h.nonce;
    while nonce <= MAX_NONCE
      invariant h.nonce <= nonce
      invariant forall n :: h.nonce <= n < nonce ==> ProofOfWorkError(net, h.(nonce := n)).Some?
      decreases MAX_NONCE + 1 - nonce
    {
      if net.headerHash(h.(nonce := nonce)) <= target.value {
        return Some(h.(nonce := nonce));
      }
      nonce := nonce + 1;
    }
    return None;
  }
}
