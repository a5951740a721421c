// The per-address index over the unspent-output set (netcoin/chain.py): it partitions the set
// by address, so a lookup of one bucket sees what a scan of the whole set would see.
module UtxoIndex {
  import opened Wrappers
  import opened Params
  import opened Ledger
  import opened Validation
  import opened Supply

  type Buckets = map<Address, Utxos>

  // The coins at one address, by scanning the whole set.
  function CoinsOf(u: Utxos, a: Address): Utxos {
    map op | op in u && u[op].output.address == a :: u[op]
  }

  function Addresses(u: Utxos): set<Address> {
    set op | op in u :: u[op].output.address
  }

  function ByAddress(u: Utxos): (index: Buckets)
    ensures index.Keys == Addresses(u)
  {
    map a | a in Addresses(u) :: CoinsOf(u, a)
  }

  function Bucket(index: Buckets, a: Address): Utxos {
    if a in index then index[a] else map[]
  }

  // A bucket lookup is a full scan, for every address.
  lemma BucketIsScan(u: Utxos, a: Address)
    ensures Bucket(ByAddress(u), a) == CoinsOf(u, a)
  {
    if a !in Addresses(u) {
      assert CoinsOf(u, a) == map[];
    }
  }

  // Buckets are disjoint, never empty, and together they are the whole set.
  lemma BucketsPartition(u: Utxos)
    ensures forall a :: a in ByAddress(u) ==> ByAddress(u)[a] != map[]
    ensures forall op :: op in u <==> exists a :: a in ByAddress(u) && op in ByAddress(u)[a]
    ensures forall a, b :: a in ByAddress(u) && b in ByAddress(u) && a != b ==>
              ByAddress(u)[a].Keys !! ByAddress(u)[b].Keys
  {
    forall a | a in ByAddress(u)
      ensures ByAddress(u)[a] != map[]
    {
      var op :| op in u && u[op].output.address == a;
      assert op in ByAddress(u)[a];
    }
    forall op | op in u
      ensures exists a :: a in ByAddress(u) && op in ByAddress(u)[a]
    {
      var a := u[op].output.address;
      assert a in ByAddress(u) && op in ByAddress(u)[a];
    }
  }

  // The two lookups determine the index: equal keys, each with its scan.
  lemma IndexIsDetermined(index: Buckets, u: Utxos)
    requires index.Keys == Addresses(u)
    requires forall a :: a in index ==> index[a] == CoinsOf(u, a)
    ensures index == ByAddress(u)
  {
  }

  function WithoutKey(index: Buckets, a: Address): Buckets {
    map b | b in index && b != a :: index[b]
  }

  // Spending: take the coin out of its bucket, and drop the bucket when it becomes empty.
  function IndexRemove(index: Buckets, op: Outpoint, a: Address): Buckets {
    if a !in index then index
    else
      var bucket := index[a] - {op};
      if bucket == map[] then WithoutKey(index, a) else index[a := bucket]
  }

  // Creating: put the coin into its bucket.
  function IndexInsert(index: Buckets, op: Outpoint, coin: Spendable): Buckets {
    index[coin.output.address := Bucket(index, coin.output.address)[op := coin]]
  }

  lemma RemoveKeepsIndex(u: Utxos, op: Outpoint)
    requires op in u
    ensures IndexRemove(ByAddress(u), op, u[op].output.address) == ByAddress(u - {op})
  {
    var a := u[op].output.address;
    var index := IndexRemove(ByAddress(u), op, a);
    assert CoinsOf(u - {op}, a) == CoinsOf(u, a) - {op};
    assert a in Addresses(u - {op}) <==> CoinsOf(u - {op}, a) != map[] by {
      if CoinsOf(u - {op}, a) != map[] {
        var other :| other in CoinsOf(u - {op}, a);
      }
      if a in Addresses(u - {op}) {
        var other :| other in u - {op} && (u - {op})[other].output.address == a;
        assert other in CoinsOf(u - {op}, a);
      }
    }
    forall b | b != a
      ensures b in Addresses(u) <==> b in Addresses(u - {op})
      ensures CoinsOf(u - {op}, b) == CoinsOf(u, b)
    {
      if b in Addresses(u) {
        var other :| other in u && u[other].output.address == b;
        assert other in u - {op};
      }
    }
    IndexIsDetermined(index, u - {op});
  }

  // Inserting keeps the index exact when a coin already there under the same outpoint pays
  // the same address.
  lemma InsertKeepsIndex(u: Utxos, op: Outpoint, coin: Spendable)
    requires op in u ==> u[op].output.address == coin.output.address
    ensures IndexInsert(ByAddress(u), op, coin) == ByAddress(u[op := coin])
  {
    var a := coin.output.address;
    var u' := u[op := coin];
    BucketIsScan(u, a);
    assert CoinsOf(u', a) == CoinsOf(u, a)[op := coin];
    assert Addresses(u') == Addresses(u) + {a} by {
      forall b | b in Addresses(u) + {a}
        ensures b in Addresses(u')
      {
        if b == a {
          assert op in u' && u'[op].output.address == a;
        } else {
          var other :| other in u && u[other].output.address == b;
          assert other in u' && u'[other].output.address == b;
        }
      }
    }
    forall b | b != a
      ensures CoinsOf(u', b) == CoinsOf(u, b)
    {
    }
    IndexIsDetermined(IndexInsert(ByAddress(u), op, coin), u');
  }

  // ---- balances ----

  predicate Immature(coin: Spendable, spendHeight: int) {
    coin.coinbase && spendHeight - coin.height < COINBASE_MATURITY
  }

  function ImmatureCoins(u: Utxos, spendHeight: int): Utxos {
    map op | op in u && Immature(u[op], spendHeight) :: u[op]
  }

  // Immature coins are exactly those that validation lets nobody spend yet, however it is signed.
  lemma ImmatureIsUnspendable(net: Network, u: Utxos, op: Outpoint, tx: Transaction, spendHeight: int)
    requires op in u && |tx.inputs| == 1 && tx.inputs[0].prevout == op
    ensures op in ImmatureCoins(u, spendHeight) <==> u[op].coinbase && spendHeight < u[op].height + 100
    ensures op in ImmatureCoins(u, spendHeight) <==> InputValue(net, tx, u, spendHeight, 1) == Err(ImmatureCoinbase)
  {
    assert InputValue(net, tx, u, spendHeight, 0) == Ok(0);
  }

  lemma ImmatureStep(coins: Utxos, op: Outpoint, spendHeight: int)
    requires op in coins
    ensures Total(ImmatureCoins(coins, spendHeight)) ==
            Total(ImmatureCoins(coins - {op}, spendHeight)) +
            (if Immature(coins[op], spendHeight) then coins[op].output.amount else 0)
  {
    if Immature(coins[op], spendHeight) {
      TotalTake(ImmatureCoins(coins, spendHeight), op);
      assert ImmatureCoins(coins, spendHeight) - {op} == ImmatureCoins(coins - {op}, spendHeight);
    } else {
      assert ImmatureCoins(coins, spendHeight) == ImmatureCoins(coins - {op}, spendHeight);
    }
  }

  // Total, spendable and immature value of the coins in one bucket.
  method SumBucket(bucket: Utxos, spendHeight: int) returns (total: nat, spendable: nat, immature: nat)
    ensures total == Total(bucket)
    ensures immature == Total(ImmatureCoins(bucket, spendHeight))
    ensures total == spendable + immature
  {
    hide ImmatureCoins;
    total, spendable, immature := 0, 0, 0;
    var todo := bucket;
    while todo != map[]
      invariant total + Total(todo) == Total(bucket)
      invariant immature + Total(ImmatureCoins(todo, spendHeight)) == Total(ImmatureCoins(bucket, spendHeight))
      invariant total == spendable + immature
      decreases |todo|
    {
      var op :| op in todo;
      TotalTake(todo, op);
      ImmatureStep(todo, op, spendHeight);
      total := total + todo[op].output.amount;
      if Immature(todo[op], spendHeight) {
        immature := immature + todo[op].output.amount;
      } else {
        spendable := spendable + todo[op].output.amount;
      }
      todo := todo - {op};
    }
    NoCoinsAreImmature(spendHeight);
  }

  lemma NoCoinsAreImmature(spendHeight: int)
    ensures Total(ImmatureCoins(map[], spendHeight)) == 0
  {
    assert ImmatureCoins(map[], spendHeight) == map[];
  }

  // ---- why an overwritten coin keeps its address ----

  // Every coin is an output of a transaction with the coin's txid.
  ghost predicate Sourced(net: Network, op: Outpoint, coin: Spendable) {
    exists tx :: net.txid(tx) == op.txid && 0 <= op.vout < |tx.outputs| && tx.outputs[op.vout] == coin.output
  }

  ghost predicate AllSourced(net: Network, u: Utxos) {
    forall op :: op in u ==> Sourced(net, op, u[op])
  }

  // So two coins at the same outpoint are the same output, because a txid commits to outputs.
  lemma SourceDeterminesOutput(net: Network, op: Outpoint, c: Spendable, d: Spendable)
    requires net.Ideal() && Sourced(net, op, c) && Sourced(net, op, d)
    ensures c.output == d.output
  {
    var s :| net.txid(s) == op.txid && 0 <= op.vout < |s.outputs| && s.outputs[op.vout] == c.output;
    var t :| net.txid(t) == op.txid && 0 <= op.vout < |t.outputs| && t.outputs[op.vout] == d.output;
    assert s.Stripped() == t.Stripped();
    assert s.outputs == t.outputs;
  }

  lemma CreatedAreSourced(net: Network, tx: Transaction, height: int, coinbase: bool)
    ensures AllSourced(net, CreatedBy(net, tx, height, coinbase))
  {
    CreatedByShape(net, tx, height, coinbase);
  }

  lemma {:induction false} ConnectKeepsSourced(net: Network, txs: seq<Transaction>, count: nat, u: Utxos, height: int)
    requires count <= |txs| && AllSourced(net, u)
    ensures AllSourced(net, ConnectTxs(net, txs, count, u, height))
  {
    hide CreatedBy, Sourced;
    if count > 0 {
      ConnectKeepsSourced(net, txs, count - 1, u, height);
      CreatedAreSourced(net, txs[count - 1], height, true);
      CreatedAreSourced(net, txs[count - 1], height, false);
    }
  }

  lemma {:induction false} ReplayIsSourced(net: Network, blocks: seq<Block>)
    ensures AllSourced(net, Replay(net, blocks))
  {
    hide ConnectTxs, Sourced;
    if blocks != [] {
      var last := blocks[|blocks| - 1];
      ReplayIsSourced(net, blocks[..|blocks| - 1]);
      ConnectKeepsSourced(net, last.transactions, |last.transactions|, Replay(net, blocks[..|blocks| - 1]),
                          last.header.height);
    }
  }
}
