// The node's ledger (class Blockchain in netcoin/chain.py): the active chain, the
// unspent-output set with its per-address index, the username registry, the mempool and the
// pool of off-tip blocks, kept in step by mining, block arrival, reorganisation and replacement.
module Node {
  import opened Wrappers
  import opened Params
  import opened Ledger
  import opened Validation
  import opened Chainstate
  import opened UtxoIndex
  import opened Usernames
  import opened Lookups
  import opened ForkChoice
  import opened Reorg
  import opened Mempool
  import opened Checks
  import opened Mining
  import opened Standards
  import Merkle
  import MedianTime
  import CompactTarget
  import Connect
  import Supply

  datatype NodeError =
    | Invalid(error: ChainError) | InvalidAddress | StoredAsCandidate
    | RewardExceedsMoney | NonceSpaceExhausted | NoValidCoinbase

  const MAX_EXTRA_NONCE := 1_000_000

  // ---- which chains compete ----

  lemma AgreementIsEnough(net: Network, chain: seq<Block>, orphans: Known, work: nat, now: int)
    requires net.Ideal() && IsValidChain(net, chain, now) && WellFiled(net, orphans)
    requires Heaviest(net, KnownBlocks(net, chain, orphans), work, now)
    ensures Agree(net, chain, orphans) ==> HeaviestHeld(net, chain, orphans, work, now)
  {
    hide IsValidChain, Network.Ideal, Heaviest, HeaviestHeld, KnownBlocks, Agree, Worked;
    ValidChainIsNumbered(net, chain, now);
    HeaviestHeldExactly(net, chain, orphans, work, now);
  }

  lemma HeavierIsNotHeaviest(net: Network, known: Known, blocks: seq<Block>, work: nat, now: int)
    requires IsValidChain(net, blocks, now) && DrawnFrom(net, known, blocks) && AllDecode(blocks) && Work(blocks) > work
    ensures !Heaviest(net, known, work, now)
  {
    hide IsValidChain, DrawnFrom;
    assert !HasAtMost(blocks, work);
  }

  // Switching takes every block of the new chain out of the pool, so none of them is hidden.
  lemma SwitchedPoolAgrees(net: Network, orphans: Known, chain: seq<Block>, newChain: seq<Block>)
    ensures Agree(net, newChain, OrphansAfterSwitch(net, orphans, chain, newChain))
  {
    hide Filed, Unlisted;
    forall b | b in newChain
      ensures net.BlockHash(b) in HashSet(net, newChain)
    {
      var i :| 0 <= i < |newChain| && newChain[i] == b;
    }
  }

  datatype Template = Template(previousHash: Hash, height: nat, bits: nat, subsidy: nat, fees: nat, maxBlockWeight: nat,
                               transactions: seq<TemplateEntry>, coinbaseValue: nat)

  datatype Balances = Balances(total: nat, spendable: nat, immature: nat)

  lemma SameGenesis(net: Network, b1: seq<Block>, b2: seq<Block>, now: int)
    requires IsValidChain(net, b1, now) && IsValidChain(net, b2, now)
    ensures b1 != [] && b2 != [] && net.BlockHash(b1[0]) == net.BlockHash(b2[0])
  {
    hide ValidateChain;
    ValidChainShape(net, b1, now);
    ValidChainShape(net, b2, now);
  }

  lemma KnownIsWellFiled(net: Network, chain: seq<Block>, orphans: Known, order: seq<Hash>, now: int)
    requires IsValidChain(net, chain, now) && WellFiled(net, orphans)
    requires forall h :: h in orphans <==> h in order
    ensures WellFiled(net, KnownBlocks(net, chain, orphans))
    ensures forall h :: h in KnownBlocks(net, chain, orphans) <==> h in Hashes(net, chain) + order
  {
    hide IsValidChain, Filed, Hashes, Worked;
    FiledIsWellFiled(net, chain, now);
    ListedHashes(net, chain);
  }

  lemma FiledIsWellFiled(net: Network, chain: seq<Block>, now: int)
    requires IsValidChain(net, chain, now)
    ensures WellFiled(net, Filed(net, chain))
  {
    hide ValidateChain, Worked;
    ValidChainShape(net, chain, now);
  }

  lemma ListedHashes(net: Network, blocks: seq<Block>)
    ensures forall h :: h in Hashes(net, blocks) <==> h in Filed(net, blocks)
  {
    FiledKeys(net, blocks);
    forall h | h in HashSet(net, blocks)
      ensures h in Hashes(net, blocks)
    {
      var i :| 0 <= i < |blocks| && net.BlockHash(blocks[i]) == h;
      assert Hashes(net, blocks)[i] == h;
    }
  }

  function HashSet(net: Network, blocks: seq<Block>): set<Hash> {
    set i | 0 <= i < |blocks| :: net.BlockHash(blocks[i])
  }

  lemma FileNothing(net: Network, known: Known, blocks: seq<Block>)
    ensures known + Filed(net, blocks[..0]) == known
  {
  }

  lemma FileOneMore(net: Network, known: Known, blocks: seq<Block>, i: nat)
    requires i < |blocks|
    ensures known + Filed(net, blocks[..i + 1]) ==
            (known + Filed(net, blocks[..i]))[net.BlockHash(blocks[i]) := blocks[i]]
  {
    hide *;
    IndexOneMore(net, blocks, i);
    FileInto(known, Filed(net, blocks[..i]), net.BlockHash(blocks[i]), blocks[i]);
  }

  lemma FileInto(known: Known, more: Known, h: Hash, b: Block)
    ensures known + more[h := b] == (known + more)[h := b]
  {
  }

  lemma DropNothing(net: Network, known: Known, blocks: seq<Block>)
    ensures known - HashSet(net, blocks[..0]) == known
  {
  }

  lemma HashSetAppend(net: Network, blocks: seq<Block>, i: nat)
    requires i < |blocks|
    ensures HashSet(net, blocks[..i + 1]) == HashSet(net, blocks[..i]) + {net.BlockHash(blocks[i])}
  {
    var longer, shorter := blocks[..i + 1], blocks[..i];
    assert longer[i] == blocks[i];
    assert forall k :: 0 <= k < i ==> longer[k] == shorter[k];
  }

  // The blocks whose hashes are not listed, in order.
  function Unlisted(net: Network, blocks: seq<Block>, hashes: set<Hash>): (rest: seq<Block>)
    ensures forall b :: b in rest <==> b in blocks && net.BlockHash(b) !in hashes
  {
    if blocks == [] then []
    else
      var last := blocks[|blocks| - 1];
      assert blocks == blocks[..|blocks| - 1] + [last];
      var rest := Unlisted(net, blocks[..|blocks| - 1], hashes);
      if net.BlockHash(last) in hashes then rest else rest + [last]
  }

  function ConfirmedIds(net: Network, blocks: seq<Block>): set<Hash> {
    set i, j | 0 <= i < |blocks| && 1 <= j < |blocks[i].transactions| :: net.txid(blocks[i].transactions[j])
  }

  lemma FiledKeys(net: Network, blocks: seq<Block>)
    ensures Filed(net, blocks).Keys == HashSet(net, blocks)
  {
    forall h | h in HashSet(net, blocks)
      ensures h in Filed(net, blocks)
    {
      var i :| 0 <= i < |blocks| && net.BlockHash(blocks[i]) == h;
      assert blocks[i] in blocks;
    }
  }

  lemma UnlistedHashes(net: Network, blocks: seq<Block>, hashes: set<Hash>)
    ensures HashSet(net, Unlisted(net, blocks, hashes)) == HashSet(net, blocks) - hashes
  {
    var rest := Unlisted(net, blocks, hashes);
    forall h | h in HashSet(net, blocks) - hashes
      ensures h in HashSet(net, rest)
    {
      var i :| 0 <= i < |blocks| && net.BlockHash(blocks[i]) == h;
      assert blocks[i] in rest;
    }
    forall h | h in HashSet(net, rest)
      ensures h in HashSet(net, blocks) - hashes
    {
      var i :| 0 <= i < |rest| && net.BlockHash(rest[i]) == h;
      assert rest[i] in blocks;
    }
  }

  // Switching to a chain drawn from the known blocks forgets no hash, and the disconnected
  // blocks are fit for the pool.
  lemma SwitchKeepsKnown(net: Network, chain: seq<Block>, newChain: seq<Block>, orphans: Known, now: int)
    requires IsValidChain(net, chain, now) && DrawnFrom(net, KnownBlocks(net, chain, orphans), newChain)
    ensures var disconnected := Unlisted(net, chain, HashSet(net, newChain));
            && (forall b :: b in disconnected ==> Worked(net, b))
            && KnownBlocks(net, newChain, (orphans + Filed(net, disconnected)) - HashSet(net, newChain)).Keys ==
               KnownBlocks(net, chain, orphans).Keys
  {
    hide ValidateChain, Worked, Filed, HashSet, Unlisted;
    ValidChainShape(net, chain, now);
    var disconnected := Unlisted(net, chain, HashSet(net, newChain));
    FiledKeys(net, chain);
    FiledKeys(net, newChain);
    FiledKeys(net, disconnected);
    UnlistedHashes(net, chain, HashSet(net, newChain));
    DrawnHashesAreKnown(net, KnownBlocks(net, chain, orphans), newChain);
  }

  lemma DrawnHashesAreKnown(net: Network, known: Known, blocks: seq<Block>)
    requires DrawnFrom(net, known, blocks)
    ensures HashSet(net, blocks) <= known.Keys
  {
    forall i | 0 <= i < |blocks|
      ensures net.BlockHash(blocks[i]) in known
    {
      assert blocks[i] in blocks;
    }
  }

  lemma ValidChainIsNumbered(net: Network, blocks: seq<Block>, now: int)
    requires IsValidChain(net, blocks, now)
    ensures blocks != [] && Numbered(blocks)
  {
    hide ValidateChain;
    ValidChainShape(net, blocks, now);
  }

  // What replaying and indexing give one block further.
  lemma ExtensionFacts(net: Network, blocks: seq<Block>, b: Block, now: int)
    requires net.Ideal() && net.genesisMessage != "" && IsValidChain(net, blocks, now)
    requires ValidateBlock(net, b, blocks, Replay(net, blocks), now).Ok?
    ensures IsValidChain(net, blocks + [b], now) && Numbered(blocks + [b])
    ensures AllSourced(net, Replay(net, blocks))
    ensures Replay(net, blocks + [b]) == ConnectBlock(net, b, Replay(net, blocks))
    ensures Filed(net, blocks + [b]) == Filed(net, blocks)[net.BlockHash(b) := b]
    ensures ReplayNames(net, blocks + [b]) == Usernames.IndexBlock(net, ReplayNames(net, blocks), b)
    ensures ReplayLookup(net, blocks + [b]) == LookUpBlock(net, ReplayLookup(net, blocks), ReplayNames(net, blocks), b)
    ensures AllDecode(blocks) && AllDecode(blocks + [b]) && Work(blocks + [b]) > Work(blocks)
  {
    hide ValidateChain, ValidateBlock, Network.Ideal;
    AppendKeepsValid(net, blocks, b, now);
    ReplayAppend(net, blocks, b);
    ReplayIsSourced(net, blocks);
    FiledAppend(net, blocks, b);
    ValidChainShape(net, blocks + [b], now);
    ValidChainDecodes(net, blocks + [b], now);
    WorkAppend(blocks, b);
  }

  lemma FiledAppend(net: Network, blocks: seq<Block>, b: Block)
    ensures Filed(net, blocks + [b]) == Filed(net, blocks)[net.BlockHash(b) := b]
    ensures ReplayNames(net, blocks + [b]) == Usernames.IndexBlock(net, ReplayNames(net, blocks), b)
    ensures ReplayLookup(net, blocks + [b]) == LookUpBlock(net, ReplayLookup(net, blocks), ReplayNames(net, blocks), b)
  {
    assert (blocks + [b])[..|blocks|] == blocks;
  }

  ghost predicate IsPartOf(a: Known, b: Known) {
    forall h :: h in a ==> h in b && a[h] == b[h]
  }

  lemma FewerAreFiled(net: Network, known: Known, h: Hash)
    requires WellFiled(net, known)
    ensures WellFiled(net, known - {h})
  {
  }

  lemma GenesisAloneIsValid(net: Network, now: int)
    requires ProofOfWorkError(net, net.Genesis().header).None?
    ensures IsValidChain(net, [net.Genesis()], now)
  {
  }

  lemma EmptyMempoolRolls(net: Network, u: Utxos, height: int, now: int)
    ensures Roll(net, [], 0, u, height, now).Ok?
  {
  }

  // What the candidate pool keeps of an insertion order.
  function Newest(order: seq<Hash>): seq<Hash> {
    if |order| <= MAX_ORPHANS then order else order[|order| - MAX_ORPHANS..]
  }

  lemma NewestDropsFirst(order: seq<Hash>)
    requires |order| > MAX_ORPHANS
    ensures Newest(order[1..]) == Newest(order)
  {
  }

  lemma NewestIsAll(order: seq<Hash>)
    requires |order| <= MAX_ORPHANS
    ensures Newest(order) == order
  {
  }

  lemma TrimmedPool(all: Known, orphans: Known, order: seq<Hash>)
    requires IsPartOf(orphans, all) && forall h :: h in orphans <==> h in order
    ensures orphans == map h | h in all && h in order :: all[h]
  {
  }

  // The candidate pool with one more block filed, within its cap.
  function PoolWith(net: Network, orphans: Known, order: seq<Hash>, b: Block): Known {
    var all, kept := orphans[net.BlockHash(b) := b], OrderWith(net, orphans, order, b);
    map h | h in all && h in kept :: all[h]
  }

  function OrderWith(net: Network, orphans: Known, order: seq<Hash>, b: Block): seq<Hash> {
    Newest(order + if net.BlockHash(b) in orphans then [] else [net.BlockHash(b)])
  }

  // Pooling a block that the chain does not hold hides none of the chain's blocks. So pool and
  // chain agree afterwards exactly when the pool keeps no block that hid one before.
  lemma PoolingKeepsAgreementExactly(net: Network, chain: seq<Block>, orphans: Known, order: seq<Hash>, b: Block)
    requires net.BlockHash(b) !in Filed(net, chain)
    ensures Agree(net, chain, PoolWith(net, orphans, order, b)) <==>
            forall c :: c in chain && Hidden(net, orphans, c) ==> net.BlockHash(c) !in PoolWith(net, orphans, order, b)
    ensures Agree(net, chain, orphans) ==> Agree(net, chain, PoolWith(net, orphans, order, b))
  {
    hide Filed, OrderWith, Network.BlockHash;
    forall c | c in chain
      ensures net.BlockHash(c) != net.BlockHash(b)
      ensures Hidden(net, PoolWith(net, orphans, order, b), c) <==>
              Hidden(net, orphans, c) && net.BlockHash(c) in PoolWith(net, orphans, order, b)
    {
    }
  }

  // With an empty pool no other chain competes with a valid extension.
  lemma EmptyPoolIsNoRival(net: Network, blocks: seq<Block>, b: Block, u: Utxos, now: int)
    requires net.Ideal() && net.genesisMessage != "" && IsValidChain(net, blocks, now) && u == Replay(net, blocks)
    requires ValidateBlock(net, b, blocks, u, now).Ok?
    ensures AllDecode(blocks + [b])
    ensures Heaviest(net, KnownBlocks(net, blocks + [b], map[]), Work(blocks + [b]), now)
  {
    hide IsValidChain, ValidateBlock, Network.Ideal, Replay, KnownBlocks, Heaviest, Work, AllDecode;
    ExtensionFacts(net, blocks, b, now);
    ChainAloneIsHeaviest(net, blocks + [b], now);
  }

  // ---- the mempool after a tip change ----

  // One transaction offered to the mempool: what the relay policy leaves, and the transaction
  // itself if it rolls on top of that.
  function Admitted(net: Network, pool: seq<Transaction>, tx: Transaction, u: Utxos, height: int,
                    now: int): seq<Transaction> {
    if tx.IsCoinbase() || net.txid(tx) in Ids(net, pool) then pool
    else
      var (dropped, willing) := net.relayPolicy(tx, pool, u, height, now);
      var left := Without(net, pool, dropped);
      match Roll(net, left, |left|, u, height, now)
      case Err(_) => left
      case Ok(v) =>
        match ValidateRegular(net, tx, v, height, now)
        case Err(_) => left
        case Ok(fee) => if willing && IsStandard(net, tx, fee) then left + [tx] else left
  }

  // Transactions 1 .. count - 1 of a block, offered in order.
  function AdmittedAll(net: Network, pool: seq<Transaction>, txs: seq<Transaction>, count: nat, u: Utxos, height: int,
                       now: int): seq<Transaction>
    requires 1 <= count <= |txs|
  {
    if count == 1 then pool
    else Admitted(net, AdmittedAll(net, pool, txs, count - 1, u, height, now), txs[count - 1], u, height, now)
  }

  function Returned(net: Network, pool: seq<Transaction>, blocks: seq<Block>, count: nat, u: Utxos, height: int,
                    now: int): seq<Transaction>
    requires count <= |blocks|
  {
    if count == 0 then pool
    else
      var txs := blocks[count - 1].transactions;
      AdmittedAll(net, Returned(net, pool, blocks, count - 1, u, height, now), txs, |txs|, u, height, now)
  }

  lemma RollOneMore(net: Network, pool: seq<Transaction>, tx: Transaction, u: Utxos, height: int, now: int)
    requires Roll(net, pool, |pool|, u, height, now).Ok?
    requires ValidateRegular(net, tx, Roll(net, pool, |pool|, u, height, now).value, height, now).Ok?
    ensures Roll(net, pool + [tx], |pool + [tx]|, u, height, now).Ok?
  {
    hide ValidateRegular, ApplyRegular;
    RollReadsPrefix(net, pool, pool + [tx], |pool|, u, height, now);
  }

  lemma NewIdStaysDistinct(net: Network, pool: seq<Transaction>, tx: Transaction)
    requires DistinctIds(net, pool) && net.txid(tx) !in Ids(net, pool)
    ensures DistinctIds(net, pool + [tx])
  {
    forall i | 0 <= i < |pool| ensures net.txid(pool[i]) != net.txid(tx) {
      assert net.txid(pool[i]) in Ids(net, pool);
    }
  }

  // Dropping confirmed transactions and purging what is left.
  function MempoolAfter(net: Network, pool: seq<Transaction>, confirmed: set<Hash>, u: Utxos, height: int,
                        now: int): seq<Transaction> {
    KeepAll(net, Purging, Without(net, pool, confirmed), u, height, now).txs
  }

  function Disconnected(net: Network, chain: seq<Block>, newChain: seq<Block>): seq<Block> {
    Unlisted(net, chain, HashSet(net, newChain))
  }

  function MempoolAfterSwitch(net: Network, pool: seq<Transaction>, chain: seq<Block>, newChain: seq<Block>, u: Utxos,
                              now: int): seq<Transaction> {
    var lost := Disconnected(net, chain, newChain);
    MempoolAfter(net, Returned(net, pool, lost, |lost|, u, |newChain|, now), ConfirmedIds(net, newChain), u, |newChain|,
                 now)
  }

  function OrphansAfterSwitch(net: Network, orphans: Known, chain: seq<Block>, newChain: seq<Block>): Known {
    (orphans + Filed(net, Disconnected(net, chain, newChain))) - HashSet(net, newChain)
  }

  // The transactions whose ids are not listed, in order.
  function Without(net: Network, txs: seq<Transaction>, ids: set<Hash>): seq<Transaction> {
    if txs == [] then []
    else
      var rest, last := Without(net, txs[..|txs| - 1], ids), txs[|txs| - 1];
      if net.txid(last) in ids then rest else rest + [last]
  }

  lemma {:induction false} WithoutKeepsDistinct(net: Network, txs: seq<Transaction>, ids: set<Hash>)
    requires DistinctIds(net, txs)
    ensures DistinctIds(net, Without(net, txs, ids))
    ensures forall tx :: tx in Without(net, txs, ids) <==> tx in txs && net.txid(tx) !in ids
  {
    if txs != [] {
      var prefix, last := txs[..|txs| - 1], txs[|txs| - 1];
      assert txs == prefix + [last];
      WithoutKeepsDistinct(net, prefix, ids);
      var rest := Without(net, prefix, ids);
      forall i | 0 <= i < |rest|
        ensures net.txid(rest[i]) != net.txid(last)
      {
        assert rest[i] in prefix;
      }
    }
  }

  method GroupByAddress(coins: Utxos) returns (index: Buckets)
    ensures index == ByAddress(coins)
  {
    hide ByAddress, IndexInsert;
    NoCoinsNoBuckets();
    index := map[];
    var todo := coins;
    while todo != map[]
      invariant Within(todo, coins) && index == ByAddress(coins - todo.Keys)
      decreases |todo|
    {
      var op :| op in todo;
      MoveOne(coins, todo, op);
      InsertKeepsIndex(coins - todo.Keys, op, todo[op]);
      index := IndexInsert(index, op, todo[op]);
      todo := todo - {op};
    }
    assert todo.Keys == {} && coins - {} == coins;
  }

  lemma MoveOne(coins: Utxos, todo: Utxos, op: Outpoint)
    requires Within(todo, coins) && op in todo
    ensures coins - (todo - {op}).Keys == (coins - todo.Keys)[op := todo[op]]
    ensures Within(todo - {op}, coins) && op !in coins - todo.Keys
  {
  }

  // Addresses whose recorded coins the inputs spend.
  method CollectSpent(owners: map<Outpoint, Address>, inputs: seq<TxInput>) returns (spent: set<Address>)
    ensures spent == SpentUpTo(owners, inputs, |inputs|)
  {
    spent := {};
    for i := 0 to |inputs|
      invariant spent == SpentUpTo(owners, inputs, i)
    {
      if inputs[i].prevout in owners {
        spent := spent + {owners[inputs[i].prevout]};
      }
    }
  }

  method RecordPaid(id: Hash, outputs: seq<TxOutput>, owners: map<Outpoint, Address>)
    returns (after: map<Outpoint, Address>)
    ensures after == owners + PaidUpTo(id, outputs, |outputs|)
  {
    hide PaidUpTo;
    after := owners;
    PaidNothing(owners, id, outputs);
    for i := 0 to |outputs|
      invariant after == owners + PaidUpTo(id, outputs, i)
    {
      PaidOneMore(owners, id, outputs, i);
      if outputs[i].address != "" {
        after := after[Outpoint(id, i) := outputs[i].address];
      }
    }
  }

  lemma PaidNothing(owners: map<Outpoint, Address>, id: Hash, outputs: seq<TxOutput>)
    ensures owners + PaidUpTo(id, outputs, 0) == owners
  {
  }

  lemma PaidOneMore(owners: map<Outpoint, Address>, id: Hash, outputs: seq<TxOutput>, i: nat)
    requires i < |outputs|
    ensures owners + PaidUpTo(id, outputs, i + 1) ==
            if outputs[i].address != "" then (owners + PaidUpTo(id, outputs, i))[Outpoint(id, i) := outputs[i].address]
            else owners + PaidUpTo(id, outputs, i)
  {
    if outputs[i].address != "" {
      MergeOne(owners, PaidUpTo(id, outputs, i), Outpoint(id, i), outputs[i].address);
    }
  }

  lemma MergeOne(a: map<Outpoint, Address>, b: map<Outpoint, Address>, op: Outpoint, payee: Address)
    ensures (a + b)[op := payee] == a + b[op := payee]
  {
  }

  method DropSpent(owners: map<Outpoint, Address>, tx: Transaction) returns (after: map<Outpoint, Address>)
    ensures after == owners - SpentBy(tx)
  {
    after := owners;
    for i := 0 to |tx.inputs|
      invariant after == owners - Spent(tx, i)
    {
      after := after - {tx.inputs[i].prevout};
    }
  }

  lemma NoCoinsNoBuckets()
    ensures ByAddress(map[]) == map[]
  {
  }

  lemma NothingCreated(base: Utxos, id: Hash, tx: Transaction, height: int)
    ensures base + Created(id, tx.outputs, 0, height, tx.IsCoinbase()) == base
  {
  }

  // One output more, in the set and in its index.
  lemma AddCoinStep(net: Network, base: Utxos, tx: Transaction, i: nat, height: int, coinbase: bool)
    requires net.Ideal() && AllSourced(net, base) && i < |tx.outputs|
    ensures var id, op := net.txid(tx), Outpoint(net.txid(tx), i);
            var before := base + Created(id, tx.outputs, i, height, coinbase);
            var after := base + Created(id, tx.outputs, i + 1, height, coinbase);
            var coin := Spendable(tx.outputs[i], height, coinbase);
            if tx.outputs[i].amount > 0 then
              before[op := coin] == after && IndexInsert(ByAddress(before), op, coin) == ByAddress(after)
            else before == after
  {
    hide ByAddress, IndexInsert;
    var id, op := net.txid(tx), Outpoint(net.txid(tx), i);
    var created := Created(id, tx.outputs, i, height, coinbase);
    var coin := Spendable(tx.outputs[i], height, coinbase);
    CreatedShape(id, tx.outputs, i, height, coinbase);
    if tx.outputs[i].amount > 0 {
      MergeInsert(base, created, op, coin);
      if op in base {
        SourceDeterminesOutput(net, op, base[op], coin) by {
          assert Sourced(net, op, coin);
        }
      }
      InsertKeepsIndex(base + created, op, coin);
    }
  }

  lemma FewerAreSourced(net: Network, u: Utxos, ops: set<Outpoint>)
    requires AllSourced(net, u)
    ensures AllSourced(net, u - ops)
  {
  }

  // ---- finding a transaction ----

  // A transaction and the block that confirms it, if any does.
  datatype Located = Located(tx: Transaction, block: Option<Block>)

  // Nothing before position `m` goes by the id, as txid or as wtxid.
  ghost predicate NoneNamed(net: Network, txs: seq<Transaction>, m: nat, id: Hash) {
    forall j :: 0 <= j < m && j < |txs| ==> net.txid(txs[j]) != id && net.wtxid(txs[j]) != id
  }

  ghost predicate NoWtxid(net: Network, b: Block, count: nat, id: Hash) {
    forall j :: 0 <= j < count && j < |b.transactions| ==> net.wtxid(b.transactions[j]) != id
  }

  ghost predicate NoWtxids(net: Network, blocks: seq<Block>, count: nat, id: Hash) {
    forall k :: 0 <= k < count && k < |blocks| ==> NoWtxid(net, blocks[k], |blocks[k].transactions|, id)
  }

  // The last confirmed transaction with the txid.
  ghost predicate IsLastConfirmed(net: Network, blocks: seq<Block>, id: Hash, found: Located) {
    exists k, i: nat ::
      && 0 <= k < |blocks| && IsLastIn(net, blocks[k], |blocks[k].transactions|, id, i)
      && (forall j :: k < j < |blocks| ==> !Lookups.Confirmed(net, blocks[j], id))
      && found == Located(blocks[k].transactions[i], Some(blocks[k]))
  }

  // The first pooled transaction with the txid or wtxid.
  ghost predicate IsFirstPooled(net: Network, txs: seq<Transaction>, id: Hash, found: Located) {
    exists m :: 0 <= m < |txs| && NoneNamed(net, txs, m, id) && (net.txid(txs[m]) == id || net.wtxid(txs[m]) == id)
                && found == Located(txs[m], None)
  }

  // The first confirmed transaction with the wtxid.
  ghost predicate IsFirstWitness(net: Network, blocks: seq<Block>, id: Hash, found: Located) {
    exists k, i ::
      && 0 <= k < |blocks| && 0 <= i < |blocks[k].transactions| && net.wtxid(blocks[k].transactions[i]) == id
      && NoWtxids(net, blocks, k, id) && NoWtxid(net, blocks[k], i, id)
      && found == Located(blocks[k].transactions[i], Some(blocks[k]))
  }

  lemma PlaceLeadsThere(net: Network, blocks: seq<Block>, id: Hash) returns (k: nat)
    requires net.Ideal() && Numbered(blocks) && id in ReplayLookup(net, blocks).places
    ensures var p := ReplayLookup(net, blocks).places[id];
            && k < |blocks| && p.blockHash in Filed(net, blocks) && Filed(net, blocks)[p.blockHash] == blocks[k]
            && p.position < |blocks[k].transactions|
            && IsLastConfirmed(net, blocks, id, Located(blocks[k].transactions[p.position], Some(blocks[k])))
  {
    hide ReplayLookup, Network.Ideal, Filed, Lookups.Confirmed;
    k := PlacesAreLast(net, blocks, id);
    ChainHashesDiffer(net, blocks);
    FiledPicks(net, blocks);
    assert blocks[k] in blocks;
  }

  // ---- which assembled blocks validate ----

  function BitsAfter(blocks: seq<Block>, now: int): Result<nat, ChainError>
    requires blocks != []
  {
    var last := blocks[|blocks| - 1].header;
    var height := if last.height < 0 then 0 else last.height + 1;
    var bits :- ExpectedBits(height, blocks);
    Ok(if now > last.timestamp + MinDifficultyGapAt(height) then POW_LIMIT_BITS else bits)
  }

  // The miner takes the easiest bits there are: its own are accepted, and no others with a higher
  // target are.
  lemma MinedBitsAreEasiest(blocks: seq<Block>, bits: nat, h: Header)
    requires blocks != [] && Numbered(blocks) && h.height == |blocks| && BitsAfter(blocks, h.timestamp) == Ok(bits)
    ensures BitsError(h.(bits := bits), blocks).None?
    ensures BitsError(h, blocks).None? && CompactTarget.BitsToTarget(h.bits).Ok? &&
            CompactTarget.BitsToTarget(bits).Ok? ==>
              CompactTarget.BitsToTarget(h.bits).value <= CompactTarget.BitsToTarget(bits).value
  {
    hide ExpectedBits, CompactTarget.CompactToTargetUnchecked;
    CompactTarget.PowLimitDecodes();
    assert blocks[|blocks| - 1].header.height == |blocks| - 1;
  }

  // The block that mining assembles over these coins, once a nonce is found.
  ghost predicate IsCandidate(net: Network, blocks: seq<Block>, k: Kept, miner: Address, extraNonce: nat, b: Block,
                              now: int) {
    var h, reward := b.header, NextSubsidy(net, blocks) + k.fees;
    && reward <= MAX_MONEY && blocks != []
    && b.transactions == [CoinbaseOver(net, |blocks|, miner, reward, extraNonce, k.txs)] + k.txs
    && h.height == |blocks| && h.previousHash == net.BlockHash(blocks[|blocks| - 1])
    && h.merkleRoot == net.MerkleRoot(b.transactions) && h.timestamp == now
    && BitsAfter(blocks, now) == Ok(h.bits) && ProofOfWorkError(net, h).None?
  }

  lemma CandidateParts(net: Network, blocks: seq<Block>, k: Kept, miner: Address, extraNonce: nat, b: Block, now: int)
    requires IsCandidate(net, blocks, k, miner, extraNonce, b, now)
    ensures b.header.previousHash == net.BlockHash(blocks[|blocks| - 1]) && b.header.timestamp == now
    ensures b.header.height == |blocks|
    ensures b.transactions[1..] == k.txs && OutputSum(b.transactions[0].outputs) == NextSubsidy(net, blocks) + k.fees
    ensures BitsAfter(blocks, now) == Ok(b.header.bits)
  {
    hide OutputSum, NextSubsidy, BitsAfter, ProofOfWorkError, Network.MerkleRoot;
  }

  // The coins of an assembled block's coinbase are the miner's, and worth subsidy plus fees.
  lemma CandidatePays(net: Network, blocks: seq<Block>, k: Kept, miner: Address, extraNonce: nat, b: Block, now: int)
    requires IsCandidate(net, blocks, k, miner, extraNonce, b, now)
    ensures PaysOnly(b.transactions[0], miner)
    ensures Supply.Total(CoinsOf(CreatedBy(net, b.transactions[0], b.header.height, true), miner))
         == NextSubsidy(net, blocks) + k.fees
  {
    CandidateParts(net, blocks, k, miner, extraNonce, b, now);
    CoinbasePaysMiner(net, |blocks|, miner, NextSubsidy(net, blocks) + k.fees, extraNonce, k.txs);
    Supply.TotalCreatedBy(net, b.transactions[0], b.header.height, true);
    hide NextSubsidy, OutputSum, CreatedBy, CoinbaseOver, PaysOnly, CoinsOf, Supply.Total, ProofOfWorkError, BitsAfter;
    hide Network.MerkleRoot;
    PayeeCoins(net, b.transactions[0], b.header.height, miner);
  }

  lemma PayeeCoins(net: Network, tx: Transaction, height: int, a: Address)
    requires PaysOnly(tx, a)
    ensures CoinsOf(CreatedBy(net, tx, height, true), a) == CreatedBy(net, tx, height, true)
  {
    var coins := CreatedBy(net, tx, height, true);
    CreatedByShape(net, tx, height, true);
    hide CreatedBy;
    assert CoinsOf(coins, a) == coins;
  }

  // They are among the connected coins unless the block itself spends one of them.
  lemma MinedCoinsStay(net: Network, blocks: seq<Block>, b: Block, u: Utxos, now: int)
    requires blocks != [] && ValidateBlock(net, b, blocks, u, now).Ok? && !Connect.SpendsOwnCoinbase(net, b)
    ensures Within(CreatedBy(net, b.transactions[0], b.header.height, true), ConnectBlock(net, b, u))
  {
    Connect.OrdersAgreeExactly(net, b, blocks, u, now);
    Supply.ValidBlockHasValidTxs(net, b, blocks, u, now);
    hide ValidateBlock, ConnectBlock, CreatedBy, ValidateTxs;
  }

  // A commitment can be read back from the script that carries it.
  ghost predicate CommitmentsReadBack(net: Network) {
    forall c: Hash :: net.commitmentIn(net.commitmentScript(c)) == [c]
  }

  // What its header is still checked for: the checkpoint and the median rule.
  ghost predicate HeaderFits(net: Network, blocks: seq<Block>, b: Block) {
    && (b.header.height in net.checkpoints ==> net.checkpoints[b.header.height] == net.BlockHash(b))
    && (b.header.height >= MTP_ACTIVATION_HEIGHT ==> b.header.timestamp > MedianTime.MedianTimePast(Timestamps(blocks)))
  }

  // The room that the selection left holds the header, the count and this coinbase: something
  // the miner can know before it assembles the block.
  predicate CoinbaseFits(net: Network, blocks: seq<Block>, k: Kept, miner: Address, extraNonce: nat) {
    var reward := NextSubsidy(net, blocks) + k.fees;
    && reward <= MAX_MONEY
    && BlockOverhead(1 + |k.txs|) + net.txWeight(CoinbaseOver(net, |blocks|, miner, reward, extraNonce, k.txs)) <=
      k.room
  }

  // Whether an assembled block is within the weight limit is a matter of that room alone.
  lemma CandidateWeighs(net: Network, blocks: seq<Block>, k: Kept, miner: Address, extraNonce: nat, b: Block, now: int)
    requires IsCandidate(net, blocks, k, miner, extraNonce, b, now)
    requires k.room + net.TotalWeight(k.txs) == MAX_BLOCK_WEIGHT
    ensures net.BlockWeight(b) <= MAX_BLOCK_WEIGHT <==> CoinbaseFits(net, blocks, k, miner, extraNonce)
  {
    hide NextSubsidy, BitsAfter, ProofOfWorkError, CoinbaseOver, Network.MerkleRoot, Network.TotalWeight, BlockOverhead;
    WeightPrepend(net, b.transactions[0], k.txs);
  }

  // With less room than that no assembled block validates, whatever the coins.
  lemma OverfullCandidateFails(net: Network, blocks: seq<Block>, k: Kept, miner: Address, extraNonce: nat, b: Block,
                               u: Utxos, now: int)
    requires IsCandidate(net, blocks, k, miner, extraNonce, b, now)
    requires k.room + net.TotalWeight(k.txs) == MAX_BLOCK_WEIGHT && !CoinbaseFits(net, blocks, k, miner, extraNonce)
    ensures ValidateBlock(net, b, blocks, u, now).Err?
  {
    CandidateWeighs(net, blocks, k, miner, extraNonce, b, now);
    hide IsCandidate, CoinbaseFits, Network.BlockWeight, Network.TotalWeight;
    TooHeavyFails(net, b, blocks, u, now);
  }

  lemma ValidCandidateFits(net: Network, blocks: seq<Block>, k: Kept, miner: Address, extraNonce: nat, b: Block,
                           u: Utxos, now: int)
    requires IsCandidate(net, blocks, k, miner, extraNonce, b, now)
    requires k.room + net.TotalWeight(k.txs) == MAX_BLOCK_WEIGHT && blocks != []
    requires ValidateBlock(net, b, blocks, u, now).Ok?
    ensures CoinbaseFits(net, blocks, k, miner, extraNonce)
  {
    hide IsCandidate, ValidateBlock, CoinbaseFits, Network.TotalWeight;
    if !CoinbaseFits(net, blocks, k, miner, extraNonce) {
      OverfullCandidateFails(net, blocks, k, miner, extraNonce, b, u, now);
    }
  }

  lemma TooHeavyFails(net: Network, b: Block, blocks: seq<Block>, u: Utxos, now: int)
    requires blocks != [] && net.BlockWeight(b) > MAX_BLOCK_WEIGHT
    ensures ValidateBlock(net, b, blocks, u, now).Err?
  {
    hide Network.BlockWeight, ValidateTxs, WitnessCommitmentHolds, BitsError, ProofOfWorkError, Network.MerkleRoot;
  }

  // It does happen: a mempool that rolls and fills the limit up to less than a header. All of
  // it is selected, no coinbase fits, and whatever is assembled fails.
  lemma FullMempoolStopsMining(net: Network, blocks: seq<Block>, mempool: seq<Transaction>, miner: Address,
                               extraNonce: nat, u: Utxos, now: int)
    requires Roll(net, mempool, |mempool|, u, |blocks|, now).Ok?
    requires net.TotalWeight(mempool) <= MAX_BLOCK_WEIGHT < net.TotalWeight(mempool) + BlockOverhead(1 + |mempool|)
    ensures var k := KeepAll(net, Mining, mempool, u, |blocks|, now);
            k.txs == mempool && !CoinbaseFits(net, blocks, k, miner, extraNonce)
    ensures forall b :: IsCandidate(net, blocks, KeepAll(net, Mining, mempool, u, |blocks|, now), miner, extraNonce, b,
                                    now)
              ==> ValidateBlock(net, b, blocks, u, now).Err?
  {
    hide Roll, Keep, ValidateBlock, NextSubsidy, CoinbaseOver, Network.TotalWeight, BlockOverhead;
    var k := KeepAll(net, Mining, mempool, u, |blocks|, now);
    assert mempool[..|mempool|] == mempool;
    WholePoolIsSelected(net, mempool, |mempool|, u, |blocks|, now);
    RoomIsWhatIsLeft(net, Mining, mempool, |mempool|, u, |blocks|, now);
    forall b | IsCandidate(net, blocks, k, miner, extraNonce, b, now)
      ensures ValidateBlock(net, b, blocks, u, now).Err?
    {
      OverfullCandidateFails(net, blocks, k, miner, extraNonce, b, u, now);
    }
  }

  lemma CandidateCommits(net: Network, blocks: seq<Block>, k: Kept, miner: Address, extraNonce: nat, b: Block, now: int)
    requires CommitmentsReadBack(net) && IsCandidate(net, blocks, k, miner, extraNonce, b, now)
    ensures WitnessCommitmentHolds(net, b.transactions)
  {
    hide BitsAfter, NextSubsidy, ProofOfWorkError, OutputSum, Network.MerkleRoot, Merkle.Root;
    var reward: Amount := NextSubsidy(net, blocks) + k.fees;
    var coinbase := b.transactions[0];
    if i :| 1 <= i < |b.transactions| && b.transactions[i].HasWitness() {
      assert k.txs[i - 1].HasWitness();
      var plain := CoinbaseFor(net, |blocks|, miner, reward, extraNonce, None);
      SameLeaves(net, plain, coinbase, k.txs);
      var c := net.pair(Merkle.Root(net.pair, WitnessLeaves(net, [plain] + k.txs)), ZERO_HASH);
      assert coinbase == CoinbaseFor(net, |blocks|, miner, reward, extraNonce, Some(c));
      assert coinbase.outputs[|coinbase.outputs| - 1].script == net.commitmentScript(c);
    }
  }

  // The commitment covers the transactions after the coinbase alone.
  lemma SameLeaves(net: Network, a: Transaction, b: Transaction, txs: seq<Transaction>)
    ensures WitnessLeaves(net, [a] + txs) == WitnessLeaves(net, [b] + txs)
  {
  }

  lemma CandidateHeader(net: Network, blocks: seq<Block>, b: Block, now: int)
    requires blocks != [] && Numbered(blocks)
    requires b.header.height == |blocks| && b.header.previousHash == net.BlockHash(blocks[|blocks| - 1])
    requires b.header.merkleRoot == net.MerkleRoot(b.transactions) && b.header.timestamp == now
    requires BitsAfter(blocks, now) == Ok(b.header.bits) && ProofOfWorkError(net, b.header).None?
    requires WitnessCommitmentHolds(net, b.transactions) && b.transactions[0].IsCoinbase()
    requires forall i :: 1 <= i < |b.transactions| ==> !b.transactions[i].IsCoinbase()
    ensures HeaderError(net, b, blocks, now).None? <==>
            HeaderFits(net, blocks, b) && net.BlockWeight(b) <= MAX_BLOCK_WEIGHT
  {
    hide ExpectedBits, ProofOfWorkError, WitnessCommitmentHolds, Network.MerkleRoot, Network.BlockHash;
    hide MedianTime.MedianTimePast, Network.BlockWeight;
  }

  // An assembled block is valid exactly when it meets its checkpoint and the median rule, has
  // a reward to pay, and its coinbase fits the room left: the selection fills the whole limit
  // and reserves nothing for the coinbase.
  lemma CandidateValidatesExactly(net: Network, blocks: seq<Block>, mempool: seq<Transaction>, miner: Address,
                                  extraNonce: nat, b: Block, now: int)
    requires net.Ideal() && net.genesisMessage != "" && AllocationFits(net) && CommitmentsReadBack(net)
    requires IsValidChain(net, blocks, now) && DistinctIds(net, mempool)
    requires IsCandidate(net, blocks, KeepAll(net, Mining, mempool, Replay(net, blocks), |blocks|, now), miner,
                         extraNonce, b, now)
    ensures ValidateBlock(net, b, blocks, Replay(net, blocks), now).Ok? <==>
            && HeaderFits(net, blocks, b) && OutputSum(b.transactions[0].outputs) > 0
            && CoinbaseFits(net, blocks, KeepAll(net, Mining, mempool, Replay(net, blocks), |blocks|, now), miner,
                            extraNonce)
  {
    hide IsValidChain, Network.Ideal, AllocationFits, CommitmentsReadBack, Replay, NextSubsidy, Keep, HeaderFits;
    hide Numbered, CoinbaseFits, Network.BlockWeight, Network.TotalWeight;
    hide CoinbaseOver, BitsAfter, ProofOfWorkError, OutputSum, WitnessCommitmentHolds, HeaderError, ValidateTxs;
    hide DistinctIds;
    var k := KeepAll(net, Mining, mempool, Replay(net, blocks), |blocks|, now);
    ValidChainIsNumbered(net, blocks, now);
    CandidateCommits(net, blocks, k, miner, extraNonce, b, now);
    KeptIdsAreDistinct(net, Mining, mempool, |mempool|, Replay(net, blocks), |blocks|, now);
    forall i | 1 <= i < |b.transactions|
      ensures !b.transactions[i].IsCoinbase()
    {
      assert b.transactions[i] == k.txs[i - 1] && k.txs[i - 1] in k.txs;
    }
    CandidateHeader(net, blocks, b, now);
    RoomIsWhatIsLeft(net, Mining, mempool, |mempool|, Replay(net, blocks), |blocks|, now);
    CandidateWeighs(net, blocks, k, miner, extraNonce, b, now);
    AssembledBlockPassesTransactionChecks(net, Mining, blocks, mempool, b.transactions[0], now);
  }

  lemma IndexOneMore(net: Network, blocks: seq<Block>, i: nat)
    requires i < |blocks|
    ensures Filed(net, blocks[..i + 1]) == Filed(net, blocks[..i])[net.BlockHash(blocks[i]) := blocks[i]]
    ensures ReplayNames(net, blocks[..i + 1]) == Usernames.IndexBlock(net, ReplayNames(net, blocks[..i]), blocks[i])
    ensures ReplayLookup(net, blocks[..i + 1]) ==
            LookUpBlock(net, ReplayLookup(net, blocks[..i]), ReplayNames(net, blocks[..i]), blocks[i])
  {
    assert blocks[..i + 1][..i] == blocks[..i];
  }

  class Blockchain {
    const net: Network
    var chain: seq<Block>
    var utxos: Utxos
    var utxosByAddress: Buckets
    var blockIndex: Known
    var names: Registry
    var lookup: Lookup
    var mempool: seq<Transaction>
    var orphans: Known
    var orphanOrder: seq<Hash>
    var clock: int

    // The derived state is what replaying the active chain from genesis gives.
    ghost predicate Indexed()
      reads this
    {
      && utxos == Replay(net, chain)
      && utxosByAddress == ByAddress(utxos)
      && blockIndex == Filed(net, chain)
      && names == ReplayNames(net, chain)
      && lookup == ReplayLookup(net, chain)
    }

    ghost predicate PoolValid()
      reads this
    {
      && WellFiled(net, orphans)
      && (forall h :: h in orphans <==> h in orphanOrder)
      && (forall i, j :: 0 <= i < j < |orphanOrder| ==> orphanOrder[i] != orphanOrder[j])
    }

    ghost predicate Valid()
      reads this
    {
      && net.Ideal() && net.genesisMessage != ""
      && IsValidChain(net, chain, clock)
      && Indexed()
      && PoolValid()
      && DistinctIds(net, mempool)
    }

    // The mempool replays in order on top of the chain.
    ghost predicate MempoolRolls()
      reads this
    {
      Roll(net, mempool, |mempool|, utxos, |chain|, clock).Ok?
    }

    // ---- indexes ----

    method SpendInputs(tx: Transaction)
      requires utxosByAddress == ByAddress(utxos)
      modifies `utxos, `utxosByAddress
      ensures utxos == old(utxos) - SpentBy(tx)
      ensures utxosByAddress == ByAddress(utxos)
    {
      for i := 0 to |tx.inputs|
        invariant utxos == old(utxos) - Spent(tx, i)
        invariant utxosByAddress == ByAddress(utxos)
      {
        var op := tx.inputs[i].prevout;
        if op in utxos {
          RemoveKeepsIndex(utxos, op);
          utxosByAddress := IndexRemove(utxosByAddress, op, utxos[op].output.address);
          utxos := utxos - {op};
        }
      }
    }

    method AddCoins(tx: Transaction, height: int)
      requires net.Ideal() && AllSourced(net, utxos) && utxosByAddress == ByAddress(utxos)
      modifies `utxos, `utxosByAddress
      ensures utxos == old(utxos) + CreatedBy(net, tx, height, tx.IsCoinbase())
      ensures utxosByAddress == ByAddress(utxos)
    {
      hide Network.Ideal, ByAddress, IndexInsert, AllSourced, Created, Transaction.IsCoinbase;
      var id, coinbase := net.txid(tx), tx.IsCoinbase();
      ghost var base := utxos;
      NothingCreated(base, id, tx, height);
      for i := 0 to |tx.outputs|
        invariant utxos == base + Created(id, tx.outputs, i, height, coinbase)
        invariant utxosByAddress == ByAddress(utxos)
      {
        AddCoinStep(net, base, tx, i, height, coinbase);
        if tx.outputs[i].amount > 0 {
          var op, coin := Outpoint(id, i), Spendable(tx.outputs[i], height, coinbase);
          utxos := utxos[op := coin];
          utxosByAddress := IndexInsert(utxosByAddress, op, coin);
        }
      }
    }

    // Connect a block to the unspent-output set and its address index, in block order.
    method ApplyBlockToUtxos(b: Block)
      requires net.Ideal() && AllSourced(net, utxos) && utxosByAddress == ByAddress(utxos)
      modifies `utxos, `utxosByAddress
      ensures utxos == ConnectBlock(net, b, old(utxos))
      ensures utxosByAddress == ByAddress(utxos) && AllSourced(net, utxos)
    {
      hide Network.Ideal, CreatedBy, SpentBy, ByAddress, AllSourced;
      for i := 0 to |b.transactions|
        invariant utxos == ConnectTxs(net, b.transactions, i, old(utxos), b.header.height)
        invariant utxosByAddress == ByAddress(utxos) && AllSourced(net, utxos)
      {
        var tx := b.transactions[i];
        ConnectKeepsSourced(net, b.transactions, i + 1, old(utxos), b.header.height);
        if !tx.IsCoinbase() {
          FewerAreSourced(net, utxos, SpentBy(tx));
          SpendInputs(tx);
        }
        AddCoins(tx, b.header.height);
      }
    }

    // Record a block: its hash, where its transactions are and which addresses they touch, the
    // addresses its outputs pay to, and the names it claims or hands over.
    method IndexBlock(b: Block)
      modifies `blockIndex, `names, `lookup
      ensures blockIndex == old(blockIndex)[net.BlockHash(b) := b]
      ensures names == Usernames.IndexBlock(net, old(names), b)
      ensures lookup == LookUpBlock(net, old(lookup), old(names), b)
    {
      hide IndexTx, LookUpTx;
      blockIndex := blockIndex[net.BlockHash(b) := b];
      for i := 0 to |b.transactions|
        invariant blockIndex == old(blockIndex)[net.BlockHash(b) := b]
        invariant names == IndexTxs(net, old(names), b, i)
        invariant lookup == LookUpTxs(net, old(lookup), old(names), b, i)
      {
        lookup := LookUpTransaction(net, lookup, names, b, i);
        IndexTransaction(b.transactions[i], b);
      }
    }

    method IndexTransaction(tx: Transaction, b: Block)
      modifies `names
      ensures names == IndexTx(net, old(names), tx, b)
    {
      hide TaggedName, FirstAddress, AfterClaim, AfterTransfer, PaidUpTo, Spent, SpentUpTo;
      var owners := RecordPaid(net.txid(tx), tx.outputs, names.owners);
      if tx.IsCoinbase() {
        names := Registry(names.claims, owners);
      } else {
        var spent := CollectSpent(names.owners, tx.inputs);
        var claims := AfterTransfer(net, AfterClaim(net, names.claims, tx, b), spent, tx, b);
        owners := DropSpent(owners, tx);
        names := Registry(claims, owners);
      }
    }

    // Rebuild the per-address index by scanning the unspent-output set.
    method RebuildAddressIndex()
      modifies `utxosByAddress
      ensures utxosByAddress == ByAddress(utxos)
    {
      utxosByAddress := GroupByAddress(utxos);
    }

    // Rebuild every index from the chain.
    method Reindex()
      modifies `utxos, `utxosByAddress, `blockIndex, `names, `lookup
      ensures Indexed()
    {
      hide ConnectBlock, Usernames.IndexBlock, LookUpBlock, Replay, ByAddress;
      blockIndex := map[];
      names, lookup := EMPTY, NOWHERE;
      for i := 0 to |chain|
        invariant blockIndex == Filed(net, chain[..i])
        invariant names == ReplayNames(net, chain[..i])
        invariant lookup == ReplayLookup(net, chain[..i])
      {
        IndexOneMore(net, chain, i);
        IndexBlock(chain[i]);
      }
      assert chain[..|chain|] == chain;
      utxos := RecomputeUtxos(net, chain);
      RebuildAddressIndex();
    }

    ghost function ChainWork(): nat
      requires Valid()
      reads this
    {
      ValidChainDecodes(net, chain, clock);
      Work(chain)
    }

    predicate ExtendsTip(blocks: seq<Block>, b: Block) {
      blocks != [] && b.header.previousHash == net.BlockHash(blocks[|blocks| - 1])
    }

    ghost function Known(): Known
      reads this
    {
      KnownBlocks(net, chain, orphans)
    }

    constructor (network: Network, now: int)
      requires network.Ideal() && network.genesisMessage != ""
      requires ProofOfWorkError(network, network.Genesis().header).None?
      ensures Valid() && MempoolRolls()
      ensures net == network && chain == [network.Genesis()] && clock == now && mempool == [] && orphans == map[]
    {
      net := network;
      chain := [network.Genesis()];
      mempool, orphans, orphanOrder, clock := [], map[], [], now;
      utxos, utxosByAddress, blockIndex, names, lookup := map[], map[], map[], EMPTY, NOWHERE;
      hide IsValidChain, Replay, Network.Ideal, ByAddress, Filed, ReplayNames, ReplayLookup, Network.Genesis;
      hide ProofOfWorkError, ValidateRegular, Worked;
      GenesisAloneIsValid(network, now);
      new;
      Reindex();
      hide Indexed;
      EmptyMempoolRolls(net, utxos, |chain|, clock);
    }

    // ---- mempool ----

    method RemoveFromMempool(ids: set<Hash>)
      requires DistinctIds(net, mempool)
      modifies `mempool
      ensures mempool == Without(net, old(mempool), ids) && DistinctIds(net, mempool)
    {
      var kept := [];
      for i := 0 to |mempool|
        invariant mempool == old(mempool)
        invariant kept == Without(net, mempool[..i], ids)
      {
        assert mempool[..i + 1][..i] == mempool[..i];
        if net.txid(mempool[i]) !in ids {
          kept := kept + [mempool[i]];
        }
      }
      assert mempool[..|mempool|] == mempool;
      WithoutKeepsDistinct(net, mempool, ids);
      mempool := kept;
    }

    method PurgeInvalidMempool()
      requires chain != [] && Numbered(chain) && DistinctIds(net, mempool)
      modifies `mempool
      ensures mempool == KeepAll(net, Purging, old(mempool), utxos, |chain|, clock).txs
      ensures DistinctIds(net, mempool) && MempoolRolls() && AllStand(net, mempool, utxos, |chain|, clock)
      ensures AllStand(net, old(mempool), utxos, |chain|, clock) ==> mempool == old(mempool)
    {
      hide AllStand;
      var height := chain[|chain| - 1].header.height + 1;
      var k := KeepTransactions(net, Purging, mempool, utxos, height, clock);
      KeptRolls(net, Purging, mempool, |mempool|, utxos, height, clock);
      KeptIdsAreDistinct(net, Purging, mempool, |mempool|, utxos, height, clock);
      PurgeKeepsAllExactly(net, mempool, utxos, height, clock);
      PurgedMempoolStands(net, mempool, utxos, height, clock);
      mempool := k.txs;
    }

    // A transaction offered to the mempool. The relay policy may first drop others for it, and
    // has its say; but a transaction only enters when it and everything left replay in order.
    method AdmitTransaction(tx: Transaction) returns (added: bool)
      requires chain != [] && Numbered(chain) && DistinctIds(net, mempool)
      modifies `mempool
      ensures DistinctIds(net, mempool)
      ensures mempool == Admitted(net, old(mempool), tx, utxos, |chain|, clock)
      ensures added ==>
                && MempoolRolls() && mempool != [] && mempool[|mempool| - 1] == tx
                && net.txid(tx) !in Ids(net, old(mempool))
      ensures !added ==> forall t :: t in mempool ==> t in old(mempool)
    {
      hide DistinctIds, ValidateRegular, ApplyRegular, IsStandard;
      if tx.IsCoinbase() || net.txid(tx) in Ids(net, mempool) {
        return false;
      }
      var (dropped, willing) := net.relayPolicy(tx, mempool, utxos, |chain|, clock);
      WithoutKeepsDistinct(net, mempool, dropped);
      RemoveFromMempool(dropped);
      var height := chain[|chain| - 1].header.height + 1;
      var rolled := RollMempool(net, mempool, utxos, height, clock);
      if rolled.Err? {
        return false;
      }
      var fee := ValidateRegularTransaction(net, tx, rolled.value, height, clock);
      if fee.Err? || !willing || !IsStandard(net, tx, fee.value) {
        return false;
      }
      RollOneMore(net, mempool, tx, utxos, height, clock);
      NewIdStaysDistinct(net, mempool, tx);
      mempool := mempool + [tx];
      return true;
    }

    // ---- the pool of off-tip blocks ----

    method FileOrphan(b: Block)
      requires PoolValid() && Worked(net, b)
      modifies `orphans, `orphanOrder
      ensures PoolValid() && orphans == old(orphans)[net.BlockHash(b) := b]
      ensures orphanOrder == old(orphanOrder) + if net.BlockHash(b) in old(orphans) then [] else [net.BlockHash(b)]
    {
      var h := net.BlockHash(b);
      if h !in orphans {
        orphanOrder := orphanOrder + [h];
      }
      orphans := orphans[h := b];
    }

    method DropOrphan(h: Hash)
      requires PoolValid()
      modifies `orphans, `orphanOrder
      ensures PoolValid() && orphans == old(orphans) - {h}
      ensures h in old(orphans) ==> |orphanOrder| == |old(orphanOrder)| - 1
      ensures old(orphanOrder) != [] && h == old(orphanOrder)[0] ==> orphanOrder == old(orphanOrder)[1..]
    {
      hide WellFiled;
      FewerAreFiled(net, orphans, h);
      if i :| 0 <= i < |orphanOrder| && orphanOrder[i] == h {
        assert orphanOrder == orphanOrder[..i] + [h] + orphanOrder[i + 1..];
        orphanOrder := orphanOrder[..i] + orphanOrder[i + 1..];
      } else {
        assert h !in orphanOrder;
        assert orphans - {h} == orphans;
      }
      orphans := orphans - {h};
    }

    // Keep an off-tip block as a candidate; the oldest ones give way beyond the cap.
    method RememberOrphan(b: Block)
      requires PoolValid() && Worked(net, b)
      modifies `orphans, `orphanOrder
      ensures PoolValid() && orphans == PoolWith(net, old(orphans), old(orphanOrder), b)
      ensures orphanOrder == OrderWith(net, old(orphans), old(orphanOrder), b)
      ensures |old(orphanOrder)| < MAX_ORPHANS ==> orphans == old(orphans)[net.BlockHash(b) := b]
    {
      hide WellFiled, Newest;
      FileOrphan(b);
      ghost var all := orphans;
      TrimOrphans();
      TrimmedPool(all, orphans, orphanOrder);
    }

    // The candidates that were inserted first give way beyond the cap.
    method TrimOrphans()
      requires PoolValid()
      modifies `orphans, `orphanOrder
      ensures PoolValid() && IsPartOf(orphans, old(orphans)) && orphanOrder == Newest(old(orphanOrder))
      ensures |old(orphanOrder)| <= MAX_ORPHANS ==> orphans == old(orphans)
    {
      hide WellFiled, Newest;
      while |orphanOrder| > MAX_ORPHANS
        invariant PoolValid() && IsPartOf(orphans, old(orphans))
        invariant Newest(orphanOrder) == Newest(old(orphanOrder))
        invariant |old(orphanOrder)| <= MAX_ORPHANS ==> orphans == old(orphans)
        decreases |orphanOrder|
      {
        NewestDropsFirst(orphanOrder);
        DropOrphan(orphanOrder[0]);
      }
      NewestIsAll(orphanOrder);
    }

    // ---- steps ----

    method Tick(now: int)
      requires Valid() && clock <= now
      modifies `clock
      ensures Valid() && clock == now
      ensures ChainWork() == old(ChainWork())
    {
      hide ValidateChain, Replay, Network.Ideal, ByAddress, Filed, ReplayNames, ReplayLookup, WellFiled, DistinctIds;
      hide Work, AllDecode;
      Connect.ChainStaysValid(net, chain, clock, now);
      clock := now;
    }

    // The block already passed validation on the kept coins: append it and bring every index
    // in step, incrementally.
    method ConnectTip(b: Block)
      requires Valid() && ValidateBlock(net, b, chain, utxos, clock).Ok?
      modifies `chain, `utxos, `utxosByAddress, `blockIndex, `names, `lookup
      ensures Valid()
      ensures chain == old(chain) + [b] && ChainWork() > old(ChainWork())
    {
      hide IsValidChain, ValidateBlock, Network.Ideal, WellFiled, Replay, Filed, ReplayNames, ReplayLookup, ByAddress;
      hide AllSourced;
      hide AllDecode, Work;
      hide DistinctIds, ConnectBlock, Usernames.IndexBlock, LookUpBlock;
      ExtensionFacts(net, chain, b, clock);
      chain := chain + [b];
      IndexBlock(b);
      ApplyBlockToUtxos(b);
    }

    // A new tip: connect it, drop the transactions it confirms, and purge the mempool.
    method ExtendTip(b: Block)
      requires Valid() && ValidateBlock(net, b, chain, utxos, clock).Ok?
      modifies `chain, `utxos, `utxosByAddress, `blockIndex, `names, `lookup, `mempool
      ensures Valid() && MempoolRolls()
      ensures chain == old(chain) + [b] && ChainWork() > old(ChainWork())
      ensures mempool == MempoolAfter(net, old(mempool), Ids(net, b.transactions[1..]), utxos, |chain|, clock)
    {
      hide IsValidChain, ValidateBlock, Network.Ideal, WellFiled, Replay, Filed, ReplayNames, ReplayLookup, ByAddress;
      hide AllDecode;
      hide Work;
      hide DistinctIds, Numbered, KeepAll, Without, Roll, Ids;
      ConnectTip(b);
      ValidChainIsNumbered(net, chain, clock);
      RemoveFromMempool(Ids(net, b.transactions[1..]));
      PurgeInvalidMempool();
    }

    // Adopt another chain of known blocks: rebuild every index, keep the disconnected blocks as
    // candidates, offer their transactions back, and purge.
    method SwitchTo(newChain: seq<Block>)
      requires Valid() && IsValidChain(net, newChain, clock) && DrawnFrom(net, Known(), newChain)
      modifies this
      ensures Valid() && MempoolRolls()
      ensures chain == newChain && clock == old(clock)
      ensures Known().Keys == old(Known()).Keys
      ensures orphans == OrphansAfterSwitch(net, old(orphans), old(chain), newChain)
      ensures mempool == MempoolAfterSwitch(net, old(mempool), old(chain), newChain, utxos, clock)
    {
      hide IsValidChain, Network.Ideal, WellFiled, Replay, Filed, ReplayNames, ReplayLookup, ByAddress, DistinctIds;
      hide Numbered;
      hide KeepAll, Without, Roll, DrawnFrom, Returned, MempoolAfter;
      hide Unlisted, HashSet, ConfirmedIds, KnownBlocks;
      ValidChainIsNumbered(net, newChain, clock);
      SwitchKeepsKnown(net, chain, newChain, orphans, clock);
      var disconnected := Unlisted(net, chain, HashSet(net, newChain));
      chain := newChain;
      Reindex();
      FileOrphans(disconnected);
      DropOrphans(newChain);
      SettleMempool(disconnected);
    }

    // Offer the transactions of disconnected blocks again, drop the confirmed ones, and purge.
    method SettleMempool(disconnected: seq<Block>)
      requires chain != [] && Numbered(chain) && DistinctIds(net, mempool)
      modifies `mempool
      ensures DistinctIds(net, mempool) && MempoolRolls()
      ensures mempool == MempoolAfter(net, Returned(net, old(mempool), disconnected, |disconnected|, utxos, |chain|,
                                                    clock),
                                      ConfirmedIds(net, chain), utxos, |chain|, clock)
    {
      hide DistinctIds, KeepAll, Without, Roll, ConfirmedIds, Returned;
      ReturnTransactions(disconnected);
      RemoveFromMempool(ConfirmedIds(net, chain));
      PurgeInvalidMempool();
    }

    method FileOrphans(blocks: seq<Block>)
      requires PoolValid() && forall b :: b in blocks ==> Worked(net, b)
      modifies `orphans, `orphanOrder
      ensures PoolValid() && orphans == old(orphans) + Filed(net, blocks)
    {
      hide WellFiled, Worked, Filed;
      FileNothing(net, orphans, blocks);
      for i := 0 to |blocks|
        invariant PoolValid() && orphans == old(orphans) + Filed(net, blocks[..i])
      {
        FileOneMore(net, old(orphans), blocks, i);
        FileOrphan(blocks[i]);
      }
      assert blocks[..|blocks|] == blocks;
    }

    method DropOrphans(blocks: seq<Block>)
      requires PoolValid()
      modifies `orphans, `orphanOrder
      ensures PoolValid() && orphans == old(orphans) - HashSet(net, blocks)
    {
      hide WellFiled, HashSet;
      DropNothing(net, orphans, blocks);
      for i := 0 to |blocks|
        invariant PoolValid() && orphans == old(orphans) - HashSet(net, blocks[..i])
      {
        HashSetAppend(net, blocks, i);
        DropOrphan(net.BlockHash(blocks[i]));
      }
      assert blocks[..|blocks|] == blocks;
    }

    method ReturnTransactions(disconnected: seq<Block>)
      requires chain != [] && Numbered(chain) && DistinctIds(net, mempool)
      modifies `mempool
      ensures DistinctIds(net, mempool)
      ensures mempool == Returned(net, old(mempool), disconnected, |disconnected|, utxos, |chain|, clock)
    {
      hide Admitted, DistinctIds, Numbered, Roll, Ids;
      for i := 0 to |disconnected|
        invariant DistinctIds(net, mempool)
        invariant mempool == Returned(net, old(mempool), disconnected, i, utxos, |chain|, clock)
      {
        var txs := disconnected[i].transactions;
        ghost var before := mempool;
        for j := 1 to |txs|
          invariant DistinctIds(net, mempool)
          invariant mempool == AdmittedAll(net, before, txs, j, utxos, |chain|, clock)
        {
          var _ := AdmitTransaction(txs[j]);
        }
      }
    }

    // Switch to the heaviest valid branch of known blocks if it strictly beats the active
    // chain. Afterwards no valid chain of the blocks known before is heavier.
    method MaybeReorg() returns (switched: bool)
      requires Valid()
      modifies this
      ensures Valid() && clock == old(clock)
      ensures Heaviest(net, old(Known()), ChainWork(), clock)
      ensures Agree(net, old(chain), old(orphans)) ==> HeaviestHeld(net, old(chain), old(orphans), ChainWork(), clock)
      ensures switched <==> !Heaviest(net, old(Known()), old(ChainWork()), clock)
      ensures switched ==> Agree(net, chain, orphans)
      ensures switched ==> ChainWork() > old(ChainWork()) && MempoolRolls()
      // A rival of the last block with the same or a higher target never displaces it.
      ensures switched ==> RivalIsHarder(old(chain), chain)
      ensures switched ==> DrawnFrom(net, old(Known()), chain) && Known().Keys == old(Known()).Keys
      ensures switched ==>
                && orphans == OrphansAfterSwitch(net, old(orphans), old(chain), chain)
                && mempool == MempoolAfterSwitch(net, old(mempool), old(chain), chain, utxos, clock)
      ensures !switched ==> unchanged(this)
    {
      hide IsValidChain, Network.Ideal, WellFiled, Replay, Filed, ReplayNames, ReplayLookup, ByAddress, DistinctIds;
      hide KnownBlocks;
      hide Roll, DrawnFrom, Work, AllDecode;
      hide Heaviest, MempoolAfterSwitch, OrphansAfterSwitch, RivalIsHarder;
      var known := KnownBlocks(net, chain, orphans);
      var candidates := Hashes(net, chain) + orphanOrder;
      KnownIsWellFiled(net, chain, orphans, orphanOrder, clock);
      var best := BestChain(net, known, candidates, chain, clock);
      AgreementIsEnough(net, chain, orphans, Work(best), clock);
      if best == chain {
        return false;
      }
      HeavierIsNotHeaviest(net, known, best, Work(chain), clock);
      SwitchedPoolAgrees(net, orphans, chain, best);
      HeavierRivalIsHarder(chain, best);
      SwitchTo(best);
      return true;
    }

    // Connect a valid extension of the tip, and let stored forks compete with the longer chain.
    method ConnectAndCompete(b: Block)
      requires Valid() && ValidateBlock(net, b, chain, utxos, clock).Ok?
      modifies this
      ensures Valid() && MempoolRolls() && clock == old(clock) && ChainWork() > old(ChainWork())
      ensures AllDecode(old(chain) + [b])
      ensures Heaviest(net, KnownBlocks(net, old(chain) + [b], old(orphans)), ChainWork(), clock)
      ensures Agree(net, old(chain) + [b], old(orphans)) ==>
                && HeaviestHeld(net, old(chain) + [b], old(orphans), ChainWork(), clock)
                && Agree(net, chain, orphans)
      ensures if Heaviest(net, KnownBlocks(net, old(chain) + [b], old(orphans)), Work(old(chain) + [b]), clock) then
                && chain == old(chain) + [b] && orphans == old(orphans) && orphanOrder == old(orphanOrder)
                && mempool == MempoolAfter(net, old(mempool), Ids(net, b.transactions[1..]), utxos, |chain|, clock)
              else
                && ChainWork() > Work(old(chain) + [b]) && Agree(net, chain, orphans)
                && orphans == OrphansAfterSwitch(net, old(orphans), old(chain) + [b], chain)
    {
      hide IsValidChain, ValidateBlock, Network.Ideal, WellFiled, Replay, Filed, ReplayNames, ReplayLookup, ByAddress;
      hide DistinctIds, KnownBlocks, Roll, DrawnFrom, Work, AllDecode, Agree, HeaviestHeld;
      hide Heaviest, MempoolAfter, MempoolAfterSwitch, OrphansAfterSwitch;
      ExtendTip(b);
      ValidChainDecodes(net, chain, clock);
      if orphans == map[] {
        ChainAloneIsHeaviest(net, chain, clock);
        AgreementIsEnough(net, chain, orphans, ChainWork(), clock);
      } else {
        var _ := MaybeReorg();
      }
    }

    // Keep a worked block as a candidate, and let it compete.
    method PoolAndCompete(b: Block) returns (switched: bool)
      requires Valid() && Worked(net, b) && net.BlockHash(b) !in blockIndex
      modifies this
      ensures Valid() && clock == old(clock)
      ensures switched <==> chain != old(chain)
      ensures var pool := PoolWith(net, old(orphans), old(orphanOrder), b);
              && Heaviest(net, KnownBlocks(net, old(chain), pool), ChainWork(), clock)
              && (Agree(net, old(chain), pool) ==> HeaviestHeld(net, old(chain), pool, ChainWork(), clock))
              && Known().Keys == KnownBlocks(net, old(chain), pool).Keys
              && (switched <==> !Heaviest(net, KnownBlocks(net, old(chain), pool), old(ChainWork()), clock))
              && if switched then
                   && ChainWork() > old(ChainWork()) && MempoolRolls() && Agree(net, chain, orphans)
                   && orphans == OrphansAfterSwitch(net, pool, old(chain), chain)
                   && mempool == MempoolAfterSwitch(net, old(mempool), old(chain), chain, utxos, clock)
                 else
                   && mempool == old(mempool)
                   && orphans == pool && orphanOrder == OrderWith(net, old(orphans), old(orphanOrder), b)
      ensures Agree(net, old(chain), old(orphans)) ==> Agree(net, chain, orphans)
    {
      hide IsValidChain, Network.Ideal, WellFiled, Replay, Filed, ReplayNames, ReplayLookup, ByAddress, DistinctIds;
      hide KnownBlocks, Roll, DrawnFrom, Work, AllDecode, Agree, HeaviestHeld;
      hide Heaviest, MempoolAfterSwitch, OrphansAfterSwitch, PoolWith, OrderWith;
      PoolingKeepsAgreementExactly(net, chain, orphans, orphanOrder, b);
      RememberOrphan(b);
      switched := MaybeReorg();
    }

    // A block arrives. It is known already, or extends the tip, or is kept as a candidate.
    method AddBlock(b: Block) returns (r: Result<Hash, NodeError>)
      requires Valid()
      modifies this
      ensures Valid() && clock == old(clock)
      ensures chain == old(chain) || (ChainWork() > old(ChainWork()) && MempoolRolls())
      ensures chain == old(chain) ==> mempool == old(mempool)
      ensures r.Ok? ==> r.value == net.BlockHash(b)
      ensures r.Err? && r.error.Invalid? ==> unchanged(this)
      ensures net.BlockHash(b) in old(blockIndex) ==> r.Ok? && unchanged(this)
      // The block extends the tip: it is connected exactly when it is valid, and stored forks
      // then compete with the longer chain.
      ensures net.BlockHash(b) !in old(blockIndex) && ExtendsTip(old(chain), b) ==>
                && (r.Ok? <==> ValidateBlock(net, b, old(chain), old(utxos), clock).Ok?)
                && (r.Err? ==> r.error == Invalid(ValidateBlock(net, b, old(chain), old(utxos), clock).error))
                && (r.Ok? && old(orphans) == map[] ==> chain == old(chain) + [b] && orphans == map[])
                && (r.Ok? ==> Heaviest(net, KnownBlocks(net, old(chain) + [b], old(orphans)), ChainWork(), clock))
                && (r.Ok? && Agree(net, old(chain) + [b], old(orphans)) ==>
                      HeaviestHeld(net, old(chain) + [b], old(orphans), ChainWork(), clock))
                && (r.Ok? ==> AllDecode(old(chain) + [b]))
                && (r.Ok? ==>
                      if Heaviest(net, KnownBlocks(net, old(chain) + [b], old(orphans)), Work(old(chain) + [b]),
                                  clock) then
                        && chain == old(chain) + [b] && orphans == old(orphans) && orphanOrder == old(orphanOrder)
                        && mempool == MempoolAfter(net, old(mempool), Ids(net, b.transactions[1..]), utxos, |chain|,
                                                   clock)
                      else
                        && ChainWork() > Work(old(chain) + [b])
                        && orphans == OrphansAfterSwitch(net, old(orphans), old(chain) + [b], chain))
      // It does not: without proof of work it is refused; otherwise it joins the candidates,
      // and the heaviest valid branch with it included is adopted.
      ensures net.BlockHash(b) !in old(blockIndex) && !ExtendsTip(old(chain), b) ==>
                match ProofOfWorkError(net, b.header)
                case Some(e) => r == Err(Invalid(e))
                case None =>
                  && (r.Ok? <==> chain != old(chain) && net.BlockHash(b) in blockIndex)
                  && (r.Err? ==> r.error == StoredAsCandidate)
                  && var pool := PoolWith(net, old(orphans), old(orphanOrder), b);
                     && Heaviest(net, KnownBlocks(net, old(chain), pool), ChainWork(), clock)
                     && (Agree(net, old(chain), pool) ==> HeaviestHeld(net, old(chain), pool, ChainWork(), clock))
                     && Known().Keys == KnownBlocks(net, old(chain), pool).Keys
                     && if Heaviest(net, KnownBlocks(net, old(chain), pool), old(ChainWork()), clock) then
                          && chain == old(chain) && orphans == pool
                          && orphanOrder == OrderWith(net, old(orphans), old(orphanOrder), b)
                        else
                          && orphans == OrphansAfterSwitch(net, pool, old(chain), chain)
                          && mempool == MempoolAfterSwitch(net, old(mempool), old(chain), chain, utxos, clock)
      // Pool and chain stop agreeing only when a block connects that the pool hides.
      ensures Agree(net, old(chain), old(orphans)) && !(ExtendsTip(old(chain), b) && Hidden(net, old(orphans), b)) ==>
                Agree(net, chain, orphans)
    {
      hide IsValidChain, ValidateBlock, Network.Ideal, WellFiled, Replay, Filed, ReplayNames, ReplayLookup, ByAddress;
      hide DistinctIds, KnownBlocks, Roll, DrawnFrom, Work, AllDecode, Agree, HeaviestHeld, Hidden;
      hide Heaviest, MempoolAfter, MempoolAfterSwitch, OrphansAfterSwitch, PoolWith, OrderWith, ProofOfWorkError;
      ValidChainIsNumbered(net, chain, clock);
      var h := net.BlockHash(b);
      if h in blockIndex {
        return Ok(h);
      }
      if ExtendsTip(chain, b) {
        var check := ValidateBlockAgainst(net, b, chain, utxos, clock);
        if check.Err? {
          return Err(Invalid(check.error));
        }
        EmptyPoolIsNoRival(net, chain, b, utxos, clock);
        AppendKeepsAgreementExactly(net, chain, orphans, b);
        ConnectAndCompete(b);
        return Ok(h);
      }
      var work := ProofOfWorkError(net, b.header);
      if work.Some? {
        return Err(Invalid(work.value));
      }
      var switched := PoolAndCompete(b);
      if switched && h in blockIndex {
        return Ok(h);
      }
      return Err(StoredAsCandidate);
    }

    // Adopt a whole chain offered from outside when it is valid and strictly heavier. The
    // candidate pool stays as it is.
    method ReplaceChain(blocks: seq<Block>) returns (r: Result<bool, NodeError>)
      requires Valid()
      modifies this
      ensures Valid() && clock == old(clock) && orphans == old(orphans)
      ensures r.Err? <==> !IsValidChain(net, blocks, clock)
      ensures r.Ok? && r.value ==> chain == blocks && ChainWork() > old(ChainWork()) && MempoolRolls()
      ensures r.Ok? && r.value ==> RivalIsHarder(old(chain), chain)
      ensures r.Ok? && r.value ==> mempool == KeepAll(net, Purging, old(mempool), utxos, |blocks|, clock).txs
      ensures r.Ok? && !r.value ==> AllDecode(blocks) && Work(blocks) <= old(ChainWork())
      ensures r == Ok(true) || unchanged(this)
    {
      hide ValidateChain, Network.Ideal, WellFiled, Replay, Filed, ReplayNames, ReplayLookup, ByAddress, DistinctIds;
      hide KnownBlocks;
      hide Roll, Work, AllDecode, Numbered, RivalIsHarder;
      var check := AssertValidChain(net, blocks, clock);
      if check.Err? {
        return Err(Invalid(check.error));
      }
      ValidChainIsNumbered(net, blocks, clock);
      ValidChainDecodes(net, chain, clock);
      ValidChainDecodes(net, blocks, clock);
      SameGenesis(net, chain, blocks, clock);
      if net.BlockHash(blocks[0]) != net.BlockHash(chain[0]) {
        return Err(Invalid(WrongGenesis));
      }
      var currentWork := CumulativeWork(chain);
      var candidateWork := CumulativeWork(blocks);
      if candidateWork <= currentWork {
        return Ok(false);
      }
      HeavierRivalIsHarder(chain, blocks);
      chain := blocks;
      Reindex();
      PurgeInvalidMempool();
      return Ok(true);
    }

    // ---- mining ----

    // The bits a new block carries: the expected ones, or the floor when it comes late.
    function NextBits(): Result<nat, ChainError>
      requires chain != []
      reads this
    {
      BitsAfter(chain, clock)
    }

    // What the miner puts into the next block.
    ghost function Selection(): Kept
      reads this
    {
      KeepAll(net, Mining, mempool, utxos, |chain|, clock)
    }

    // The block assembled with this coinbase nonce does not validate.
    ghost predicate CandidateFails(miner: Address, extraNonce: nat)
      reads this
      requires chain != []
    {
      exists b :: IsCandidate(net, chain, Selection(), miner, extraNonce, b, clock) &&
             ValidateBlock(net, b, chain, utxos, clock).Err?
    }

    // The coinbase over the selection, and the first nonce that meets the target.
    method MakeBlock(miner: Address, k: Kept, bits: nat, extraNonce: nat) returns (candidate: Option<Block>)
      requires chain != [] && NextSubsidy(net, chain) + k.fees <= MAX_MONEY && NextBits() == Ok(bits)
      ensures candidate.Some? ==> IsCandidate(net, chain, k, miner, extraNonce, candidate.value, clock)
    {
      hide CoinbaseOver, BitsAfter, ProofOfWorkError, NextSubsidy, Network.Txids;
      var height, tip := |chain|, net.BlockHash(chain[|chain| - 1]);
      var reward := NextSubsidy(net, chain) + k.fees;
      var txs := [CoinbaseOver(net, height, miner, reward, extraNonce, k.txs)] + k.txs;
      var root := Merkle.MerkleRoot(net.pair, net.Txids(txs));
      var header := MineHeader(net, Header(1, tip, root, clock, bits, 0, height));
      if header.None? {
        return None;
      }
      return Some(RawBlock(header.value, txs));
    }

    // Assemble a block from the mempool, search for a nonce and a coinbase that validate, and
    // extend the tip with it.
    method MineBlock(miner: Address) returns (r: Result<Block, NodeError>)
      requires Valid()
      modifies this
      ensures Valid() && clock == old(clock)
      ensures r.Err? ==> unchanged(this)
      ensures r == Err(NoValidCoinbase) ==> forall n :: 0 <= n <= MAX_EXTRA_NONCE ==> CandidateFails(miner, n)
      // The new coins of the coinbase are the miner's and worth subsidy plus fees, and they are
      // among the node's coins unless the block itself spends them.
      ensures r.Ok? ==>
                var coins := CreatedBy(net, r.value.transactions[0], |old(chain)|, true);
                && Supply.Total(CoinsOf(coins, miner)) == NextSubsidy(net, old(chain)) + old(Selection()).fees
                && (!Connect.SpendsOwnCoinbase(net, r.value) ==> Within(coins, utxos))
      ensures (forall n :: 0 <= n <= MAX_EXTRA_NONCE ==> !CoinbaseFits(net, old(chain), old(Selection()), miner, n)) ==>
                r.Err?
      ensures r.Ok? ==>
                exists n :: 0 <= n <= MAX_EXTRA_NONCE
                            && CoinbaseFits(net, old(chain), old(Selection()), miner, n)
                            && IsCandidate(net, old(chain), old(Selection()), miner, n, r.value, clock)
      ensures r.Ok? ==>
                && chain == old(chain) + [r.value] && ChainWork() > old(ChainWork()) && MempoolRolls()
                && r.value.transactions[1..] == old(Selection()).txs
                && OutputSum(r.value.transactions[0].outputs) == NextSubsidy(net, old(chain)) + old(Selection()).fees
                && PaysOnly(r.value.transactions[0], miner)
                && r.value.header.height == |old(chain)| && r.value.header.timestamp == clock
                && old(NextBits()) == Ok(r.value.header.bits)
                && orphans == old(orphans)
                && mempool == MempoolAfter(net, old(mempool), Ids(net, r.value.transactions[1..]), utxos, |chain|,
                                           clock)
    {
      hide IsValidChain, ValidateBlock, Network.Ideal, WellFiled, Replay, Filed, ReplayNames, ReplayLookup, ByAddress;
      hide DistinctIds;
      hide Roll, Work, AllDecode, Keep, NextSubsidy;
      hide Known, BitsAfter, Roll, OutputSum, IsCandidate, MempoolAfter, CoinbaseFits, Network.TotalWeight;
      hide PaysOnly, CoinsOf, CreatedBy, Connect.SpendsOwnCoinbase, Within, ConnectBlock;
      if !net.validAddress(miner) {
        return Err(InvalidAddress);
      }
      ValidChainIsNumbered(net, chain, clock);
      var bits := NextBits();
      if bits.Err? {
        return Err(Invalid(bits.error));
      }
      var k := KeepTransactions(net, Policy.Mining, mempool, utxos, |chain|, clock);
      var reward := NextSubsidy(net, chain) + k.fees;
      if reward > MAX_MONEY {
        return Err(RewardExceedsMoney);
      }
      var extraNonce := 0;
      while extraNonce <= MAX_EXTRA_NONCE
        invariant unchanged(this) && 0 <= extraNonce <= MAX_EXTRA_NONCE + 1
        invariant forall n :: 0 <= n < extraNonce ==> CandidateFails(miner, n)
        decreases MAX_EXTRA_NONCE + 1 - extraNonce
      {
        var candidate := MakeBlock(miner, k, bits.value, extraNonce);
        if candidate.None? {
          return Err(NonceSpaceExhausted);
        }
        var check := ValidateBlockAgainst(net, candidate.value, chain, utxos, clock);
        if check.Ok? {
          assert k == old(Selection());
          RoomIsWhatIsLeft(net, Policy.Mining, mempool, |mempool|, utxos, |chain|, clock);
          ValidCandidateFits(net, chain, k, miner, extraNonce, candidate.value, utxos, clock);
          CandidateParts(net, chain, k, miner, extraNonce, candidate.value, clock);
          CandidatePays(net, chain, k, miner, extraNonce, candidate.value, clock);
          ReplayAppend(net, chain, candidate.value);
          if !Connect.SpendsOwnCoinbase(net, candidate.value) {
            MinedCoinsStay(net, chain, candidate.value, utxos, clock);
          }
          assert IsCandidate(net, old(chain), old(Selection()), miner, extraNonce, candidate.value, clock);
          ExtendTip(candidate.value);
          return Ok(candidate.value);
        }
        extraNonce := extraNonce + 1;
      }
      return Err(NoValidCoinbase);
    }

    // The template handed to outside miners: every valid mempool transaction with its fee,
    // without the weight limit, and the value their coinbase may claim.
    method BlockTemplate(miner: Address) returns (r: Result<Template, NodeError>)
      requires Valid()
      ensures !net.validAddress(miner) ==> r == Err(InvalidAddress)
      ensures net.validAddress(miner) && NextBits().Err? ==> r == Err(Invalid(NextBits().error))
      ensures net.validAddress(miner) && NextBits().Ok? ==>
                && r.Ok?
                && var k := KeepAll(net, Templating, mempool, utxos, |chain|, clock);
                   && r.value == Template(net.BlockHash(chain[|chain| - 1]), |chain|, NextBits().value,
                                          NextSubsidy(net, chain), k.fees,
                                          MAX_BLOCK_WEIGHT, r.value.transactions, NextSubsidy(net, chain) + k.fees)
                   && Entered(net, r.value.transactions, k.txs, utxos, |chain|, clock)
    {
      hide IsValidChain, Network.Ideal, WellFiled, Replay, Filed, ReplayNames, ReplayLookup, ByAddress, DistinctIds;
      hide Keep;
      hide NextSubsidy, ExpectedBits, Entered;
      if !net.validAddress(miner) {
        return Err(InvalidAddress);
      }
      ValidChainIsNumbered(net, chain, clock);
      var bits := NextBits();
      if bits.Err? {
        return Err(Invalid(bits.error));
      }
      var k, entries := ListTemplate(net, mempool, utxos, |chain|, clock);
      var subsidy := NextSubsidy(net, chain);
      return Ok(Template(net.BlockHash(chain[|chain| - 1]), |chain|, bits.value, subsidy, k.fees, MAX_BLOCK_WEIGHT,
                         entries, subsidy + k.fees));
    }

    // ---- queries ----

    // Balances read from one bucket are those of a scan over the replayed chain.
    method BalancesForAddress(a: Address) returns (r: Result<Balances, NodeError>)
      requires Valid()
      ensures !net.validAddress(a) ==> r == Err(InvalidAddress)
      ensures net.validAddress(a) ==>
                && r.Ok?
                && var coins := CoinsOf(Replay(net, chain), a);
                   && r.value.total == Supply.Total(coins)
                   && r.value.immature == Supply.Total(ImmatureCoins(coins, |chain|))
                   && r.value.total == r.value.spendable + r.value.immature
    {
      hide IsValidChain, Network.Ideal, WellFiled, Replay, Filed, ReplayNames, ReplayLookup, ByAddress, DistinctIds;
      hide CoinsOf;
      hide ImmatureCoins;
      if !net.validAddress(a) {
        return Err(InvalidAddress);
      }
      ValidChainIsNumbered(net, chain, clock);
      BucketIsScan(utxos, a);
      var total, spendable, immature := SumBucket(Bucket(utxosByAddress, a), chain[|chain| - 1].header.height + 1);
      return Ok(Balances(total, spendable, immature));
    }

    // By txid through the index; otherwise by either id in the mempool, then by wtxid along the
    // chain.
    method GetTransaction(id: Hash) returns (r: Option<Located>)
      requires Valid()
      ensures InChain(net, chain, id) ==> r.Some? && IsLastConfirmed(net, chain, id, r.value)
      ensures !InChain(net, chain, id) && !NoneNamed(net, mempool, |mempool|, id) ==>
                r.Some? && IsFirstPooled(net, mempool, id, r.value)
      ensures !InChain(net, chain, id) && NoneNamed(net, mempool, |mempool|, id) ==>
                if NoWtxids(net, chain, |chain|, id) then r.None?
                else r.Some? && IsFirstWitness(net, chain, id, r.value)
    {
      hide IsValidChain, Network.Ideal, WellFiled, Replay, Filed, ReplayNames, ReplayLookup, ByAddress, DistinctIds;
      hide InChain, IsLastConfirmed, IsFirstPooled, IsFirstWitness, NoneNamed, NoWtxids;
      ValidChainIsNumbered(net, chain, clock);
      PlacesAreConfirmed(net, chain, id);
      if id in lookup.places {
        ghost var k := PlaceLeadsThere(net, chain, id);
        var p := lookup.places[id];
        var b := blockIndex[p.blockHash];
        return Some(Located(b.transactions[p.position], Some(b)));
      }
      r := FindPooled(id);
      if r.None? {
        r := FindWitness(id);
      }
    }

    method FindPooled(id: Hash) returns (r: Option<Located>)
      ensures r.None? <==> NoneNamed(net, mempool, |mempool|, id)
      ensures r.Some? ==> IsFirstPooled(net, mempool, id, r.value)
    {
      for m := 0 to |mempool|
        invariant NoneNamed(net, mempool, m, id)
      {
        if net.txid(mempool[m]) == id || net.wtxid(mempool[m]) == id {
          return Some(Located(mempool[m], None));
        }
      }
      return None;
    }

    method FindWitness(id: Hash) returns (r: Option<Located>)
      ensures r.None? <==> NoWtxids(net, chain, |chain|, id)
      ensures r.Some? ==> IsFirstWitness(net, chain, id, r.value)
    {
      for k := 0 to |chain|
        invariant NoWtxids(net, chain, k, id)
      {
        for i := 0 to |chain[k].transactions|
          invariant NoWtxid(net, chain[k], i, id)
        {
          if net.wtxid(chain[k].transactions[i]) == id {
            return Some(Located(chain[k].transactions[i], Some(chain[k])));
          }
        }
      }
      return None;
    }

    // The confirmed coins, with the mempool rolled on top when asked for.
    method UtxoSet(includeMempool: bool) returns (r: Result<Utxos, ChainError>)
      requires Valid()
      ensures !includeMempool ==> r == Ok(Replay(net, chain))
      ensures includeMempool ==> (r.Ok? <==> MempoolRolls())
      ensures includeMempool ==> r == Roll(net, mempool, |mempool|, utxos, |chain|, clock)
    {
      hide IsValidChain, Network.Ideal, WellFiled, Replay, Filed, ReplayNames, ReplayLookup, ByAddress, DistinctIds;
      hide Roll;
      if !includeMempool {
        return Ok(utxos);
      }
      r := RollMempool(net, mempool, utxos, |chain|, clock);
    }
  }
}
