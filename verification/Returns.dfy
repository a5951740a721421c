// What a reorganisation does to the mempool (netcoin/chain.py, maybe_reorg and add_transaction):
// when a transaction enters, and that transactions of disconnected blocks come back.
module Returns {
  import opened Ledger
  import opened Validation
  import opened Chainstate
  import opened Mempool
  import opened Rules
  import opened Standards
  import opened Node
  import Reorg
  import HiddenFork

  // ---- entering the mempool ----

  // A transaction enters when it is no coinbase, its txid is new, the relay policy is willing,
  // and on the coins of what the policy leaves it is valid and meets the relay rules.
  ghost predicate MayEnter(net: Network, pool: seq<Transaction>, tx: Transaction, u: Utxos, height: int, now: int) {
    && !tx.IsCoinbase() && (forall t :: t in pool ==> net.txid(t) != net.txid(tx))
    && var (dropped, willing) := net.relayPolicy(tx, pool, u, height, now);
       var left := Without(net, pool, dropped);
       && willing && Roll(net, left, |left|, u, height, now).Ok?
       && var coins := Roll(net, left, |left|, u, height, now).value;
          && IsGood(net, tx, coins, height, now)
          && MeetsRelayRules(net, tx, InputWorth(tx, coins) - OutputSum(tx.outputs))
  }

  lemma EntersExactly(net: Network, pool: seq<Transaction>, tx: Transaction, u: Utxos, height: int, now: int)
    ensures var after := Admitted(net, pool, tx, u, height, now);
            var left := Without(net, pool, net.relayPolicy(tx, pool, u, height, now).0);
            if MayEnter(net, pool, tx, u, height, now) then after == left + [tx]
            else after == if tx.IsCoinbase() || net.txid(tx) in Ids(net, pool) then pool else left
  {
    hide ValidateRegular, IsGood, IsStandard, MeetsRelayRules, InputWorth, OutputSum, Roll, Without;
    hide Transaction.IsCoinbase;
    var (dropped, willing) := net.relayPolicy(tx, pool, u, height, now);
    var left := Without(net, pool, dropped);
    var rolled := Roll(net, left, |left|, u, height, now);
    if rolled.Ok? {
      TransactionValidExactly(net, tx, rolled.value, height, now);
      var r := ValidateRegular(net, tx, rolled.value, height, now);
      if r.Ok? {
        StandardExactly(net, tx, r.value);
      }
    }
  }

  // ---- coming back ----

  // The relay policy lets each transaction from a position on in after those before it, and drops
  // nothing for it.
  ghost predicate LetIn(net: Network, txs: seq<Transaction>, from: nat, u: Utxos, height: int, now: int) {
    forall i :: from <= i < |txs| ==> net.relayPolicy(txs[i], txs[..i], u, height, now) == ({}, true)
  }

  ghost predicate NoCoinbase(txs: seq<Transaction>) {
    forall tx :: tx in txs ==> !tx.IsCoinbase()
  }

  // The transactions of some blocks after their coinbases, in order.
  function Bodies(blocks: seq<Block>): seq<Transaction> {
    if blocks == [] then [] else Bodies(blocks[..|blocks| - 1]) + blocks[|blocks| - 1].transactions[1..]
  }

  lemma {:induction false} NothingDropped(net: Network, txs: seq<Transaction>, ids: set<Hash>)
    requires forall tx :: tx in txs ==> net.txid(tx) !in ids
    ensures Without(net, txs, ids) == txs
  {
    if txs != [] {
      NothingDropped(net, txs[..|txs| - 1], ids);
    }
  }

  lemma StandingPrefix(net: Network, a: seq<Transaction>, b: seq<Transaction>, u: Utxos, height: int, now: int)
    requires AllStand(net, a + b, u, height, now)
    ensures AllStand(net, a, u, height, now)
  {
    hide Roll, IsGood, MeetsRelayRules, InputWorth, OutputSum;
    forall i | 0 <= i < |a| ensures StandsAt(net, a, i, u, height, now) {
      assert StandsAt(net, a + b, i, u, height, now);
      assert a[..i] == (a + b)[..i] && a[i] == (a + b)[i];
      RollReadsPrefix(net, a, a + b, i, u, height, now);
    }
  }

  // One that stands at the end of the pool enters it there.
  lemma NextEnters(net: Network, pool: seq<Transaction>, tx: Transaction, u: Utxos, height: int, now: int)
    requires net.relayPolicy(tx, pool, u, height, now) == ({}, true) && !tx.IsCoinbase()
    requires DistinctIds(net, pool + [tx]) && AllStand(net, pool + [tx], u, height, now)
    ensures Admitted(net, pool, tx, u, height, now) == pool + [tx]
  {
    hide Admitted, Roll, IsGood, MeetsRelayRules, InputWorth, OutputSum, Transaction.IsCoinbase;
    var all := pool + [tx];
    assert StandsAt(net, all, |pool|, u, height, now);
    RollReadsPrefix(net, all, pool, |pool|, u, height, now);
    NothingDropped(net, pool, {});
    forall t | t in pool ensures net.txid(t) != net.txid(tx) {
      var i :| 0 <= i < |pool| && pool[i] == t;
      assert all[i] == t && all[|pool|] == tx;
    }
    EntersExactly(net, pool, tx, u, height, now);
  }

  lemma {:induction false} BodyEnters(net: Network, pool: seq<Transaction>, txs: seq<Transaction>, count: nat, u: Utxos,
                                      height: int, now: int)
    requires 1 <= count <= |txs| && NoCoinbase(txs[1..])
    requires LetIn(net, pool + txs[1..count], |pool|, u, height, now)
    requires DistinctIds(net, pool + txs[1..count]) && AllStand(net, pool + txs[1..count], u, height, now)
    ensures AdmittedAll(net, pool, txs, count, u, height, now) == pool + txs[1..count]
  {
    hide Admitted, AllStand, LetIn, Transaction.IsCoinbase;
    if count > 1 {
      var before, tx := pool + txs[1..count - 1], txs[count - 1];
      assert pool + txs[1..count] == before + [tx];
      assert tx == txs[1..][count - 2];
      StandingPrefix(net, before, [tx], u, height, now);
      DistinctPrefix(net, before, [tx]);
      LetInPrefix(net, before, [tx], |pool|, u, height, now);
      BodyEnters(net, pool, txs, count - 1, u, height, now);
      LetInNext(net, before, tx, |pool|, u, height, now);
      NextEnters(net, before, tx, u, height, now);
    } else {
      assert pool + txs[1..1] == pool;
    }
  }

  lemma LetInPrefix(net: Network, a: seq<Transaction>, b: seq<Transaction>, from: nat, u: Utxos, height: int, now: int)
    requires LetIn(net, a + b, from, u, height, now)
    ensures LetIn(net, a, from, u, height, now)
  {
    forall i | from <= i < |a| ensures net.relayPolicy(a[i], a[..i], u, height, now) == ({}, true) {
      assert (a + b)[i] == a[i] && (a + b)[..i] == a[..i];
    }
  }

  lemma LetInNext(net: Network, a: seq<Transaction>, tx: Transaction, from: nat, u: Utxos, height: int, now: int)
    requires from <= |a| && LetIn(net, a + [tx], from, u, height, now)
    ensures net.relayPolicy(tx, a, u, height, now) == ({}, true)
  {
    assert (a + [tx])[|a|] == tx && (a + [tx])[..|a|] == a;
  }

  lemma LaterLetIn(net: Network, txs: seq<Transaction>, from: nat, later: nat, u: Utxos, height: int, now: int)
    requires from <= later && LetIn(net, txs, from, u, height, now)
    ensures LetIn(net, txs, later, u, height, now)
  {
  }

  lemma DistinctPrefix(net: Network, a: seq<Transaction>, b: seq<Transaction>)
    requires DistinctIds(net, a + b)
    ensures DistinctIds(net, a)
  {
    assert forall i :: 0 <= i < |a| ==> (a + b)[i] == a[i];
  }

  lemma {:induction false} BlocksReturn(net: Network, pool: seq<Transaction>, blocks: seq<Block>, count: nat, u: Utxos,
                                        height: int, now: int)
    requires count <= |blocks| && NoCoinbase(Bodies(blocks[..count]))
    requires LetIn(net, pool + Bodies(blocks[..count]), |pool|, u, height, now)
    requires DistinctIds(net, pool + Bodies(blocks[..count]))
    requires AllStand(net, pool + Bodies(blocks[..count]), u, height, now)
    ensures Returned(net, pool, blocks, count, u, height, now) == pool + Bodies(blocks[..count])
  {
    hide AllStand, LetIn, DistinctIds, AdmittedAll;
    if count > 0 {
      var txs, rest := blocks[count - 1].transactions, blocks[..count - 1];
      var before := pool + Bodies(rest);
      assert blocks[..count][..count - 1] == rest;
      assert txs[1..] == txs[1..|txs|];
      assert pool + Bodies(blocks[..count]) == before + txs[1..];
      StandingPrefix(net, before, txs[1..], u, height, now);
      DistinctPrefix(net, before, txs[1..]);
      LetInPrefix(net, before, txs[1..], |pool|, u, height, now);
      BlocksReturn(net, pool, blocks, count - 1, u, height, now);
      LaterLetIn(net, before + txs[1..], |pool|, |before|, u, height, now);
      BodyEnters(net, before, txs, |txs|, u, height, now);
    }
  }

  // ---- what is disconnected ----

  lemma {:induction false} UnlistedTail(net: Network, blocks: seq<Block>, hashes: set<Hash>, k: nat)
    requires k <= |blocks|
    requires forall i :: 0 <= i < k ==> net.BlockHash(blocks[i]) in hashes
    requires forall i :: k <= i < |blocks| ==> net.BlockHash(blocks[i]) !in hashes
    ensures Unlisted(net, blocks, hashes) == blocks[k..]
  {
    hide *;
    if k == |blocks| {
      AllAreListed(net, blocks, hashes);
      assert blocks[k..] == [];
    } else {
      var n := |blocks| - 1;
      UnlistedStep(net, blocks, hashes);
      UnlistedTail(net, blocks[..n], hashes, k);
      assert blocks[k..] == blocks[..n][k..] + [blocks[n]];
    }
  }

  lemma AllAreListed(net: Network, blocks: seq<Block>, hashes: set<Hash>)
    requires forall i :: 0 <= i < |blocks| ==> net.BlockHash(blocks[i]) in hashes
    ensures Unlisted(net, blocks, hashes) == []
  {
    var rest := Unlisted(net, blocks, hashes);
    assert forall b :: b !in rest;
  }

  lemma UnlistedStep(net: Network, blocks: seq<Block>, hashes: set<Hash>)
    requires blocks != []
    ensures var rest, last := Unlisted(net, blocks[..|blocks| - 1], hashes), blocks[|blocks| - 1];
            Unlisted(net, blocks, hashes) == if net.BlockHash(last) in hashes then rest else rest + [last]
  {
  }

  // Of two valid chains that part after block k, one disconnects exactly its blocks above k.
  lemma TailIsDisconnected(net: Network, chain: seq<Block>, newChain: seq<Block>, k: nat, now: int)
    requires net.Ideal() && IsValidChain(net, chain, now) && IsValidChain(net, newChain, now)
    requires HiddenFork.PartsAfter(net, newChain, chain, k)
    ensures Disconnected(net, chain, newChain) == chain[k + 1..]
  {
    ValidChainShape(net, chain, now);
    ValidChainShape(net, newChain, now);
    hide IsValidChain, Network.Ideal, Network.BlockHash, Unlisted;
    var hashes := HashSet(net, newChain);
    forall i | 0 <= i < |chain|
      ensures net.BlockHash(chain[i]) in hashes <==> i <= k
    {
      if i <= k {
        Reorg.SharedBlock(newChain, chain, k, i);
        assert net.BlockHash(newChain[i]) in hashes;
      } else {
        forall j | 0 <= j < |newChain| ensures net.BlockHash(chain[i]) != net.BlockHash(newChain[j]) {
          HiddenFork.ForkStaysApart(net, newChain, chain, k, i, j);
        }
      }
    }
    UnlistedTail(net, chain, hashes, k + 1);
  }

  lemma {:induction false} InBodies(blocks: seq<Block>, tx: Transaction) returns (m: nat, i: nat)
    requires tx in Bodies(blocks)
    ensures m < |blocks| && 1 <= i < |blocks[m].transactions| && blocks[m].transactions[i] == tx
  {
    var rest, txs := blocks[..|blocks| - 1], blocks[|blocks| - 1].transactions;
    if tx in Bodies(rest) {
      m, i := InBodies(rest, tx);
    } else {
      var j :| 0 <= j < |txs[1..]| && txs[1..][j] == tx;
      m, i := |blocks| - 1, j + 1;
    }
  }

  lemma BodiesHoldNoCoinbase(net: Network, chain: seq<Block>, k: nat, now: int)
    requires IsValidChain(net, chain, now) && k < |chain|
    ensures NoCoinbase(Bodies(chain[k + 1..]))
  {
    hide IsValidChain, Bodies;
    forall tx | tx in Bodies(chain[k + 1..]) ensures !tx.IsCoinbase() {
      var m, i := InBodies(chain[k + 1..], tx);
      ChainTxIsGood(net, chain, k + 1 + m, i, now);
    }
  }

  // No reorganisation loses a transaction that still stands: when mempool and disconnected
  // transactions all stand on the new chain and it confirms none of them, they are the mempool.
  lemma ReorgReturnsTransactions(net: Network, pool: seq<Transaction>, chain: seq<Block>, newChain: seq<Block>, k: nat,
                                 u: Utxos, now: int)
    requires net.Ideal() && IsValidChain(net, chain, now) && IsValidChain(net, newChain, now)
    requires HiddenFork.PartsAfter(net, newChain, chain, k)
    requires LetIn(net, pool + Bodies(chain[k + 1..]), |pool|, u, |newChain|, now)
    requires DistinctIds(net, pool + Bodies(chain[k + 1..]))
    requires AllStand(net, pool + Bodies(chain[k + 1..]), u, |newChain|, now)
    requires forall tx :: tx in pool + Bodies(chain[k + 1..]) ==> Unconfirmed(net, newChain, tx)
    ensures MempoolAfterSwitch(net, pool, chain, newChain, u, now) == pool + Bodies(chain[k + 1..])
  {
    hide IsValidChain, Network.Ideal, AllStand, LetIn, DistinctIds, Returned, Disconnected, Bodies, NoCoinbase;
    hide Without, Keep, Unconfirmed;
    TailIsDisconnected(net, chain, newChain, k, now);
    BodiesHoldNoCoinbase(net, chain, k, now);
    var lost := chain[k + 1..];
    assert lost[..|lost|] == lost;
    BlocksReturn(net, pool, lost, |lost|, u, |newChain|, now);
    var all := pool + Bodies(lost);
    forall tx | tx in all ensures net.txid(tx) !in ConfirmedIds(net, newChain) {
      UnconfirmedExactly(net, newChain, tx);
    }
    NothingDropped(net, all, ConfirmedIds(net, newChain));
    PurgeKeepsAllExactly(net, all, u, |newChain|, now);
  }

  // ---- what is confirmed leaves ----

  // No transaction of the chain after a coinbase has its txid.
  ghost predicate Unconfirmed(net: Network, blocks: seq<Block>, tx: Transaction) {
    forall k, i :: 0 <= k < |blocks| && 1 <= i < |blocks[k].transactions| ==>
      net.txid(blocks[k].transactions[i]) != net.txid(tx)
  }

  lemma UnconfirmedExactly(net: Network, blocks: seq<Block>, tx: Transaction)
    ensures Unconfirmed(net, blocks, tx) <==> net.txid(tx) !in ConfirmedIds(net, blocks)
  {
  }

  lemma {:induction false} WithoutIsAmong(net: Network, txs: seq<Transaction>, ids: set<Hash>, tx: Transaction)
    ensures tx in Without(net, txs, ids) <==> tx in txs && net.txid(tx) !in ids
  {
    if txs != [] {
      WithoutIsAmong(net, txs[..|txs| - 1], ids, tx);
      assert txs == txs[..|txs| - 1] + [txs[|txs| - 1]];
    }
  }

  lemma {:induction false} KeptIsAmong(net: Network, policy: Policy, txs: seq<Transaction>, count: nat, u: Utxos,
                                       height: int, now: int, tx: Transaction)
    requires count <= |txs| && tx in Keep(net, policy, txs, count, u, height, now).txs
    ensures tx in txs
  {
    hide KeepNext;
    if count > 0 {
      var before := Keep(net, policy, txs, count - 1, u, height, now);
      KeepNextCases(net, policy, before, txs[count - 1], height, now);
      if tx in before.txs {
        KeptIsAmong(net, policy, txs, count - 1, u, height, now, tx);
      }
    }
  }

  // After a switch nothing in the mempool is confirmed, and all of it stands.
  lemma SwitchedMempool(net: Network, pool: seq<Transaction>, chain: seq<Block>, newChain: seq<Block>, u: Utxos,
                        now: int)
    ensures var after := MempoolAfterSwitch(net, pool, chain, newChain, u, now);
            && AllStand(net, after, u, |newChain|, now)
            && forall tx :: tx in after ==> Unconfirmed(net, newChain, tx)
  {
    hide Returned, Disconnected, Without, Keep, AllStand, Unconfirmed, ConfirmedIds;
    var lost := Disconnected(net, chain, newChain);
    var offered := Returned(net, pool, lost, |lost|, u, |newChain|, now);
    var left := Without(net, offered, ConfirmedIds(net, newChain));
    PurgedMempoolStands(net, left, u, |newChain|, now);
    forall tx | tx in KeepAll(net, Purging, left, u, |newChain|, now).txs ensures Unconfirmed(net, newChain, tx) {
      KeptIsAmong(net, Purging, left, |left|, u, |newChain|, now, tx);
      WithoutIsAmong(net, offered, ConfirmedIds(net, newChain), tx);
      UnconfirmedExactly(net, newChain, tx);
    }
  }

  // Extending the tip drops the block's transactions and whatever stands no longer.
  lemma ExtendedMempool(net: Network, pool: seq<Transaction>, b: Block, u: Utxos, height: int, now: int)
    ensures var after := MempoolAfter(net, pool, Ids(net, b.transactions[1..]), u, height, now);
            && AllStand(net, after, u, height, now)
            && forall tx, i :: tx in after && 1 <= i < |b.transactions| ==> net.txid(b.transactions[i]) != net.txid(tx)
  {
    hide Without, Keep, AllStand;
    var ids := Ids(net, b.transactions[1..]);
    var left := Without(net, pool, ids);
    PurgedMempoolStands(net, left, u, height, now);
    forall tx, i | tx in KeepAll(net, Purging, left, u, height, now).txs && 1 <= i < |b.transactions|
      ensures net.txid(b.transactions[i]) != net.txid(tx)
    {
      KeptIsAmong(net, Purging, left, |left|, u, height, now, tx);
      WithoutIsAmong(net, pool, ids, tx);
      assert b.transactions[i] == b.transactions[1..][i - 1];
    }
  }
}
