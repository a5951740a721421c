// How a hidden block comes about (netcoin/chain.py, Blockchain.add_block): a run of block
// arrivals after which the node holds a valid, heavier fork and does not adopt it.
module HiddenFork {
  import opened Params
  import opened Ledger
  import opened Validation
  import opened Chainstate
  import opened ForkChoice
  import opened Reorg
  import Handovers
  import Node

  // Every block is valid on the coins kept below it, as when blocks are connected one by one.
  ghost predicate ConnectsInOrder(net: Network, blocks: seq<Block>, now: int) {
    forall i :: 1 <= i < |blocks| ==> ConnectsAt(net, blocks, i, now)
  }

  ghost predicate ConnectsAt(net: Network, blocks: seq<Block>, i: nat, now: int)
    requires 1 <= i < |blocks|
  {
    ValidateBlock(net, blocks[i], blocks[..i], Replay(net, blocks[..i]), now).Ok?
  }

  // Chain and fork part ways right after block k.
  ghost predicate PartsAfter(net: Network, chain: seq<Block>, fork: seq<Block>, k: nat) {
    && ForksAfter(chain, fork, k) && k + 1 < |chain| && k + 1 < |fork|
    && net.BlockHash(fork[k + 1]) != net.BlockHash(chain[k + 1])
  }

  // ---- hashes along the two chains ----

  lemma BlockAt(net: Network, chain: seq<Block>, now: int, n: nat)
    requires IsValidChain(net, chain, now) && n < |chain|
    ensures Numbered(chain) && Linked(net, chain) && Worked(net, chain[n]) && chain[n].header.height == n
    ensures n > 0 ==> chain[n].header.previousHash == net.BlockHash(chain[n - 1])
  {
    hide IsValidChain, Worked;
    ValidChainShape(net, chain, now);
    assert chain[n] in chain;
  }

  lemma ConnectedValidates(net: Network, chain: seq<Block>, n: nat, now: int)
    requires 1 <= n < |chain| && ConnectsAt(net, chain, n, now)
    ensures ValidateBlock(net, chain[n], chain[..n], Replay(net, chain[..n]), now).Ok?
  {
  }

  lemma OthersAreNotFiled(net: Network, blocks: seq<Block>, b: Block)
    requires forall c :: c in blocks ==> net.BlockHash(c) != net.BlockHash(b)
    ensures net.BlockHash(b) !in Filed(net, blocks)
  {
    hide Filed;
  }

  lemma NotYetFiled(net: Network, chain: seq<Block>, n: nat, b: Block)
    requires net.Ideal() && Numbered(chain) && n <= |chain| && b.header.height >= n
    ensures net.BlockHash(b) !in Filed(net, chain[..n])
  {
    forall c | c in chain[..n]
      ensures net.BlockHash(c) != net.BlockHash(b)
    {
      var i :| 0 <= i < n && chain[i] == c;
    }
    OthersAreNotFiled(net, chain[..n], b);
  }

  lemma NotTheTip(net: Network, chain: seq<Block>, n: nat, i: nat)
    requires net.Ideal() && Numbered(chain) && Linked(net, chain) && 1 <= n < i < |chain|
    ensures chain[i].header.previousHash != net.BlockHash(chain[n - 1])
  {
    assert chain[i - 1].header.height == i - 1 && chain[n - 1].header.height == n - 1;
  }

  // Once they have parted, no block of the fork has the hash of a block of the chain.
  lemma {:induction false} ForkStaysApart(net: Network, chain: seq<Block>, fork: seq<Block>, k: nat, i: nat, j: nat)
    requires net.Ideal() && PartsAfter(net, chain, fork, k) && k < i < |fork| && j < |chain|
    requires Numbered(chain) && Numbered(fork) && Linked(net, chain) && Linked(net, fork)
    ensures net.BlockHash(fork[i]) != net.BlockHash(chain[j])
    decreases i
  {
    if net.BlockHash(fork[i]) == net.BlockHash(chain[j]) {
      assert fork[i].header.height == i && chain[j].header.height == j;
      if i > k + 1 {
        ForkStaysApart(net, chain, fork, k, i - 1, i - 1);
      }
    }
  }

  lemma ForkIsNotFiled(net: Network, chain: seq<Block>, fork: seq<Block>, k: nat, i: nat)
    requires net.Ideal() && PartsAfter(net, chain, fork, k) && k < i < |fork|
    requires Numbered(chain) && Numbered(fork) && Linked(net, chain) && Linked(net, fork)
    ensures net.BlockHash(fork[i]) !in Filed(net, chain)
  {
    hide Network.Ideal, PartsAfter, Network.BlockHash;
    forall c | c in chain
      ensures net.BlockHash(c) != net.BlockHash(fork[i])
    {
      var j :| 0 <= j < |chain| && chain[j] == c;
      ForkStaysApart(net, chain, fork, k, i, j);
    }
    OthersAreNotFiled(net, chain, fork[i]);
  }

  // Neither does one extend the chain's tip.
  lemma ForkIsOffTip(net: Network, chain: seq<Block>, fork: seq<Block>, k: nat, i: nat)
    requires net.Ideal() && PartsAfter(net, chain, fork, k) && k < i < |fork|
    requires Numbered(chain) && Numbered(fork) && Linked(net, chain) && Linked(net, fork)
    ensures fork[i].header.previousHash != net.BlockHash(chain[|chain| - 1])
  {
    if i > k + 1 {
      ForkStaysApart(net, chain, fork, k, i - 1, |chain| - 1);
    } else {
      SharedBlock(chain, fork, k, k);
      assert chain[k].header.height == k && chain[|chain| - 1].header.height == |chain| - 1;
    }
  }

  // ---- the pool along the run ----

  // The blocks of the fork after block k, up to block n.
  function Beyond(fork: seq<Block>, k: nat, n: nat): seq<Block>
    requires k < n <= |fork|
  {
    fork[k + 1..n]
  }

  lemma PoolHasRoom(net: Network, orphans: Known, order: seq<Hash>, b: Block)
    requires forall h :: h in orphans <==> h in order
    requires |order| < MAX_ORPHANS && net.BlockHash(b) !in orphans
    ensures Node.PoolWith(net, orphans, order, b) == orphans[net.BlockHash(b) := b]
    ensures |Node.OrderWith(net, orphans, order, b)| == |order| + 1
  {
    assert Node.OrderWith(net, orphans, order, b) == order + [net.BlockHash(b)];
  }

  lemma NothingFiled(net: Network, hidden: Block)
    ensures HidingPool(net, hidden, []) == map[net.BlockHash(hidden) := RepeatTail(hidden)]
  {
  }

  lemma BeyondGrows(fork: seq<Block>, k: nat, n: nat)
    requires k < n < |fork|
    ensures Beyond(fork, k, n + 1) == Beyond(fork, k, n) + [fork[n]]
  {
  }

  lemma BeyondEnds(fork: seq<Block>, k: nat)
    requires k < |fork|
    ensures Beyond(fork, k, k + 1) == [] && Beyond(fork, k, |fork|) == fork[k + 1..]
  {
  }

  lemma HeightsDiffer(net: Network, blocks: seq<Block>, i: nat, j: nat)
    requires net.Ideal() && Numbered(blocks) && i < j < |blocks|
    ensures net.BlockHash(blocks[i]) != net.BlockHash(blocks[j])
  {
    assert blocks[i].header.height == i && blocks[j].header.height == j;
  }

  lemma OneMoreOfFork(net: Network, chain: seq<Block>, fork: seq<Block>, k: nat, i: nat)
    requires net.Ideal() && Numbered(fork) && ForksAfter(chain, fork, k) && k < i < |fork|
    ensures net.BlockHash(fork[i]) !in HidingPool(net, chain[k], Beyond(fork, k, i))
    ensures HidingPool(net, chain[k], Beyond(fork, k, i + 1)) ==
            HidingPool(net, chain[k], Beyond(fork, k, i))[net.BlockHash(fork[i]) := fork[i]]
  {
    SharedBlock(chain, fork, k, k);
    hide *;
    HeightsDiffer(net, fork, k, i);
    TailLacks(net, fork, k, i);
    BeyondGrows(fork, k, i);
    FileBehind(net, chain[k], Beyond(fork, k, i), fork[i]);
  }

  lemma FileBehind(net: Network, hidden: Block, tail: seq<Block>, b: Block)
    requires net.BlockHash(b) != net.BlockHash(hidden) && net.BlockHash(b) !in Filed(net, tail)
    ensures net.BlockHash(b) !in HidingPool(net, hidden, tail)
    ensures HidingPool(net, hidden, tail + [b]) == HidingPool(net, hidden, tail)[net.BlockHash(b) := b]
  {
    hide *;
    Node.FiledAppend(net, tail, b);
    HidingPoolIs(net, hidden, tail);
    HidingPoolIs(net, hidden, tail + [b]);
    UpdatesCommute(Filed(net, tail), net.BlockHash(b), b, net.BlockHash(hidden), RepeatTail(hidden));
  }

  lemma HidingPoolIs(net: Network, hidden: Block, tail: seq<Block>)
    ensures HidingPool(net, hidden, tail) == Filed(net, tail)[net.BlockHash(hidden) := RepeatTail(hidden)]
  {
  }

  lemma UpdatesCommute(known: Known, g: Hash, b: Block, h: Hash, c: Block)
    requires g != h
    ensures known[g := b][h := c] == known[h := c][g := b]
  {
  }

  lemma TailLacks(net: Network, fork: seq<Block>, k: nat, i: nat)
    requires net.Ideal() && Numbered(fork) && k < i < |fork|
    ensures net.BlockHash(fork[i]) !in Filed(net, Beyond(fork, k, i))
  {
    hide Network.BlockHash, Network.Ideal, Numbered;
    forall c | c in Beyond(fork, k, i)
      ensures net.BlockHash(c) != net.BlockHash(fork[i])
    {
      var a :| k + 1 <= a < i && fork[a] == c;
      HeightsDiffer(net, fork, a, i);
    }
    OthersAreNotFiled(net, Beyond(fork, k, i), fork[i]);
  }

  lemma PrefixIsValid(net: Network, chain: seq<Block>, now: int, n: nat)
    requires IsValidChain(net, chain, now) && 1 <= n <= |chain|
    ensures IsValidChain(net, chain[..n], now) && AllDecode(chain[..n])
  {
    hide IsValidChain;
    if n < |chain| {
      Handovers.PrefixValidates(net, chain, now, n);
    } else {
      assert chain[..n] == chain;
    }
    ValidChainDecodes(net, chain[..n], now);
  }

  lemma PrefixHidesWithin(chain: seq<Block>, n: nat, k: nat)
    requires Numbered(chain) && 1 <= k < |chain| && n <= |chain|
    ensures HidesWithin(chain[..n], chain[k], [])
  {
  }

  lemma PrefixStaysHeaviest(net: Network, chain: seq<Block>, now: int, n: nat, k: nat)
    requires net.Ideal() && IsValidChain(net, chain, now) && 1 <= k < |chain| && 1 <= n <= |chain|
    ensures AllDecode(chain[..n])
    ensures Heaviest(net, KnownBlocks(net, chain[..n], HidingPool(net, chain[k], [])), Work(chain[..n]), now)
  {
    hide IsValidChain, Network.Ideal, Linked, Worked, HidesWithin, Heaviest, KnownBlocks, HidingPool, Work, AllDecode;
    ValidChainShape(net, chain, now);
    PrefixIsValid(net, chain, now, n);
    PrefixHidesWithin(chain, n, k);
    NothingBeatsChain(net, chain[..n], chain[k], [], now);
  }

  lemma ForkStaysLighter(net: Network, chain: seq<Block>, fork: seq<Block>, k: nat, n: nat, now: int)
    requires net.Ideal() && IsValidChain(net, chain, now) && IsValidChain(net, fork, now)
    requires ForksAfter(chain, fork, k) && k < n <= |fork|
    ensures AllDecode(chain)
    ensures Heaviest(net, KnownBlocks(net, chain, HidingPool(net, chain[k], Beyond(fork, k, n))), Work(chain), now)
  {
    hide IsValidChain, Network.Ideal, Linked, Worked, HidesWithin, Heaviest, KnownBlocks, HidingPool, Work, AllDecode;
    ValidChainShape(net, chain, now);
    ValidChainShape(net, fork, now);
    ValidChainDecodes(net, chain, now);
    ForkHidesWithin(chain, fork, k, n);
    NothingBeatsChain(net, chain, chain[k], Beyond(fork, k, n), now);
  }

  // ---- the run ----

  // A node that has the chain up to below block k - 1, with nothing pooled.
  ghost predicate Awaits(node: Node.Blockchain, chain: seq<Block>, k: nat)
    reads node
  {
    && node.Valid() && node.orphans == map[]
    && 1 <= |node.chain| < k < |chain| && node.chain == chain[..|node.chain|]
  }

  // What the run uses of a valid node.
  lemma ValidParts(node: Node.Blockchain)
    requires node.Valid()
    ensures node.net.Ideal() && IsValidChain(node.net, node.chain, node.clock)
    ensures node.blockIndex == Filed(node.net, node.chain) && node.utxos == Replay(node.net, node.chain)
    ensures AllDecode(node.chain) && node.ChainWork() == Work(node.chain)
    ensures forall h :: h in node.orphans <==> h in node.orphanOrder
    ensures node.orphans == map[] ==> node.orphanOrder == []
  {
    hide IsValidChain, Network.Ideal, WellFiled, Filed, Replay, AllDecode, Work;
    ValidChainDecodes(node.net, node.chain, node.clock);
    assert node.orphanOrder == [] || node.orphanOrder[0] in node.orphanOrder;
  }

  lemma TipParts(node: Node.Blockchain, b: Block)
    requires node.chain != []
    ensures node.ExtendsTip(node.chain, b) <==>
            b.header.previousHash == node.net.BlockHash(node.chain[|node.chain| - 1])
  {
  }

  // A worked block that is off the tip and beats nothing joins a pool with room for it.
  method PoolLosingBlock(node: Node.Blockchain, b: Block)
    requires node.Valid() && Worked(node.net, b) && |node.orphanOrder| < MAX_ORPHANS
    requires node.net.BlockHash(b) !in node.blockIndex && node.net.BlockHash(b) !in node.orphans
    requires !node.ExtendsTip(node.chain, b)
    requires Heaviest(node.net, KnownBlocks(node.net, node.chain, node.orphans[node.net.BlockHash(b) := b]),
                      node.ChainWork(), node.clock)
    modifies node
    ensures node.Valid() && node.clock == old(node.clock) && node.chain == old(node.chain)
    ensures node.orphans == old(node.orphans)[node.net.BlockHash(b) := b]
    ensures |node.orphanOrder| == |old(node.orphanOrder)| + 1
  {
    ValidParts(node);
    PoolHasRoom(node.net, node.orphans, node.orphanOrder, b);
    assert ProofOfWorkError(node.net, b.header).None?;
    hide *;
    var _ := node.AddBlock(b);
  }

  // The repeated body of block k arrives first: nothing is known of it yet, and it is pooled.
  method PoolRepeatedBody(node: Node.Blockchain, ghost chain: seq<Block>, ghost k: nat, b: Block)
    requires Awaits(node, chain, k) && IsValidChain(node.net, chain, node.clock) && b == chain[k]
    modifies node
    ensures node.Valid() && node.clock == old(node.clock) && node.chain == old(node.chain)
    ensures node.orphans == HidingPool(node.net, b, []) && |node.orphanOrder| == 1
  {
    BodyIsPooled(node, chain, k);
    hide *;
    PoolLosingBlock(node, RepeatTail(b));
  }

  lemma BodyIsPooled(node: Node.Blockchain, chain: seq<Block>, k: nat)
    requires Awaits(node, chain, k) && IsValidChain(node.net, chain, node.clock)
    ensures node.Valid() && node.orphanOrder == [] && 0 < MAX_ORPHANS
    ensures var net, body := node.net, RepeatTail(chain[k]);
            && Worked(net, body) && net.BlockHash(body) !in node.blockIndex && net.BlockHash(body) !in node.orphans
            && !node.ExtendsTip(node.chain, body)
            && node.orphans[net.BlockHash(body) := body] == HidingPool(net, chain[k], [])
            && Heaviest(net, KnownBlocks(net, node.chain, HidingPool(net, chain[k], [])), node.ChainWork(), node.clock)
  {
    var n, body := |node.chain|, RepeatTail(chain[k]);
    ValidParts(node);
    TipParts(node, body);
    ValidChainShape(node.net, chain, node.clock);
    assert chain[k] in chain;
    hide IsValidChain, Network.Ideal, Filed, Replay, KnownBlocks, Heaviest, Work, AllDecode, HidingPool;
    hide Node.Blockchain.Valid, Node.Blockchain.ExtendsTip;
    NotYetFiled(node.net, chain, n, body);
    NotTheTip(node.net, chain, n, k);
    NothingFiled(node.net, chain[k]);
    PrefixStaysHeaviest(node.net, chain, node.clock, n, k);
  }

  // Block n arrives and is connected.
  method ConnectNext(node: Node.Blockchain, ghost chain: seq<Block>, ghost k: nat, ghost n: nat, b: Block)
    requires node.Valid() && 1 <= k < |chain| && 1 <= n < |chain| && node.chain == chain[..n] && b == chain[n]
    requires IsValidChain(node.net, chain, node.clock) && ConnectsAt(node.net, chain, n, node.clock)
    requires node.orphans == HidingPool(node.net, chain[k], [])
    modifies node
    ensures node.Valid() && node.clock == old(node.clock) && node.chain == chain[..n + 1]
    ensures node.orphans == old(node.orphans) && node.orphanOrder == old(node.orphanOrder)
  {
    NextConnects(node, chain, k, n);
    hide *;
    var _ := node.AddBlock(b);
  }

  lemma NextConnects(node: Node.Blockchain, chain: seq<Block>, k: nat, n: nat)
    requires node.Valid() && 1 <= k < |chain| && 1 <= n < |chain| && node.chain == chain[..n]
    requires IsValidChain(node.net, chain, node.clock) && ConnectsAt(node.net, chain, n, node.clock)
    ensures node.net.BlockHash(chain[n]) !in node.blockIndex && node.ExtendsTip(node.chain, chain[n])
    ensures ValidateBlock(node.net, chain[n], node.chain, node.utxos, node.clock).Ok?
    ensures chain[..n + 1] == node.chain + [chain[n]] && AllDecode(chain[..n + 1])
    ensures Heaviest(node.net, KnownBlocks(node.net, chain[..n + 1], HidingPool(node.net, chain[k], [])),
                     Work(chain[..n + 1]), node.clock)
  {
    hide *;
    ValidParts(node);
    TipParts(node, chain[n]);
    BlockAt(node.net, chain, node.clock, n);
    ConnectedValidates(node.net, chain, n, node.clock);
    NotYetFiled(node.net, chain, n, chain[n]);
    PrefixStaysHeaviest(node.net, chain, node.clock, n + 1, k);
  }

  // Block n of the fork arrives and is pooled.
  method PoolNext(node: Node.Blockchain, ghost fork: seq<Block>, ghost k: nat, ghost n: nat, b: Block)
    requires node.Valid() && PartsAfter(node.net, node.chain, fork, k) && k < n < |fork| && b == fork[n]
    requires IsValidChain(node.net, fork, node.clock)
    requires node.orphans == HidingPool(node.net, node.chain[k], Beyond(fork, k, n)) && |node.orphanOrder| < MAX_ORPHANS
    modifies node
    ensures node.Valid() && node.clock == old(node.clock) && node.chain == old(node.chain)
    ensures node.orphans == HidingPool(node.net, node.chain[k], Beyond(fork, k, n + 1))
    ensures |node.orphanOrder| == |old(node.orphanOrder)| + 1
  {
    ForkBlockIsPooled(node, fork, k, n);
    hide *;
    PoolLosingBlock(node, b);
  }

  lemma PartsFork(net: Network, chain: seq<Block>, fork: seq<Block>, k: nat)
    requires PartsAfter(net, chain, fork, k)
    ensures ForksAfter(chain, fork, k) && 1 <= k && k + 1 < |chain| && k + 1 < |fork|
  {
  }

  lemma ForkBlockIsPooled(node: Node.Blockchain, fork: seq<Block>, k: nat, n: nat)
    requires node.Valid() && PartsAfter(node.net, node.chain, fork, k) && k < n < |fork|
    requires IsValidChain(node.net, fork, node.clock)
    requires node.orphans == HidingPool(node.net, node.chain[k], Beyond(fork, k, n))
    ensures Worked(node.net, fork[n]) && !node.ExtendsTip(node.chain, fork[n])
    ensures node.net.BlockHash(fork[n]) !in node.blockIndex && node.net.BlockHash(fork[n]) !in node.orphans
    ensures node.orphans[node.net.BlockHash(fork[n]) := fork[n]] ==
            HidingPool(node.net, node.chain[k], Beyond(fork, k, n + 1))
    ensures Heaviest(node.net, KnownBlocks(node.net, node.chain,
                                           HidingPool(node.net, node.chain[k], Beyond(fork, k, n + 1))),
                     node.ChainWork(), node.clock)
  {
    hide *;
    PartsFork(node.net, node.chain, fork, k);
    ValidParts(node);
    TipParts(node, fork[n]);
    ForkBlockLoses(node.net, node.chain, fork, k, n, node.clock);
  }

  lemma ForkBlockLoses(net: Network, chain: seq<Block>, fork: seq<Block>, k: nat, n: nat, now: int)
    requires net.Ideal() && IsValidChain(net, chain, now) && IsValidChain(net, fork, now)
    requires PartsAfter(net, chain, fork, k) && k < n < |fork|
    ensures net.BlockHash(fork[n]) !in Filed(net, chain) && Worked(net, fork[n])
    ensures net.BlockHash(fork[n]) !in HidingPool(net, chain[k], Beyond(fork, k, n))
    ensures fork[n].header.previousHash != net.BlockHash(chain[|chain| - 1]) && AllDecode(chain)
    ensures HidingPool(net, chain[k], Beyond(fork, k, n + 1)) ==
            HidingPool(net, chain[k], Beyond(fork, k, n))[net.BlockHash(fork[n]) := fork[n]]
    ensures Heaviest(net, KnownBlocks(net, chain, HidingPool(net, chain[k], Beyond(fork, k, n + 1))), Work(chain), now)
  {
    hide *;
    PartsFork(net, chain, fork, k);
    BlockAt(net, chain, now, 0);
    BlockAt(net, fork, now, n);
    ForkIsNotFiled(net, chain, fork, k, n);
    ForkIsOffTip(net, chain, fork, k, n);
    OneMoreOfFork(net, chain, fork, k, n);
    ForkStaysLighter(net, chain, fork, k, n + 1, now);
  }

  lemma RunStarts(node: Node.Blockchain, chain: seq<Block>, k: nat)
    requires Awaits(node, chain, k)
    ensures node.Valid() && 1 <= |node.chain| < k < |chain| && node.chain == chain[..|node.chain|]
  {
  }

  lemma InOrderAt(net: Network, chain: seq<Block>, n: nat, now: int)
    requires ConnectsInOrder(net, chain, now) && 1 <= n < |chain|
    ensures ConnectsAt(net, chain, n, now)
  {
  }

  // The chain arrives block by block.
  method DeliverChain(node: Node.Blockchain, chain: seq<Block>, ghost k: nat)
    requires node.Valid() && 1 <= |node.chain| <= |chain| && 1 <= k < |chain|
    requires node.chain == chain[..|node.chain|] && node.orphans == HidingPool(node.net, chain[k], [])
    requires IsValidChain(node.net, chain, node.clock) && ConnectsInOrder(node.net, chain, node.clock)
    modifies node
    ensures node.Valid() && node.clock == old(node.clock) && node.chain == chain
    ensures node.orphans == old(node.orphans) && node.orphanOrder == old(node.orphanOrder)
  {
    hide *;
    for n := |node.chain| to |chain|
      invariant node.Valid() && node.clock == old(node.clock) && node.chain == chain[..n]
      invariant node.orphans == old(node.orphans) && node.orphanOrder == old(node.orphanOrder)
    {
      InOrderAt(node.net, chain, n, node.clock);
      ConnectNext(node, chain, k, n, chain[n]);
    }
    assert chain[..|chain|] == chain;
  }

  // The fork arrives block by block, beyond block k.
  method DeliverFork(node: Node.Blockchain, ghost chain: seq<Block>, fork: seq<Block>, k: nat)
    requires node.Valid() && node.chain == chain && PartsAfter(node.net, chain, fork, k) && |fork| - k <= MAX_ORPHANS
    requires IsValidChain(node.net, fork, node.clock)
    requires node.orphans == HidingPool(node.net, chain[k], []) && |node.orphanOrder| == 1
    modifies node
    ensures node.Valid() && node.clock == old(node.clock)
    ensures node.chain == chain && node.orphans == HidingPool(node.net, chain[k], fork[k + 1..])
  {
    hide *;
    PartsFork(node.net, chain, fork, k);
    BeyondEnds(fork, k);
    for n := k + 1 to |fork|
      invariant node.Valid() && node.clock == old(node.clock) && node.chain == chain
      invariant node.orphans == HidingPool(node.net, chain[k], Beyond(fork, k, n)) && |node.orphanOrder| == n - k
    {
      PoolNext(node, fork, k, n, fork[n]);
    }
  }

  // The run: the repeated body of block k, then the chain block by block, then the fork block
  // by block. The node ends on the chain, holds every block of the fork, and lets it lie even
  // when it is heavier.
  method DeliverHiddenFork(node: Node.Blockchain, chain: seq<Block>, fork: seq<Block>, k: nat)
    requires Awaits(node, chain, k) && PartsAfter(node.net, chain, fork, k) && |fork| - k <= MAX_ORPHANS
    requires IsValidChain(node.net, chain, node.clock) && ConnectsInOrder(node.net, chain, node.clock)
    requires IsValidChain(node.net, fork, node.clock)
    modifies node
    ensures node.Valid() && node.clock == old(node.clock)
    ensures node.chain == chain && node.orphans == HidingPool(node.net, chain[k], fork[k + 1..])
    ensures AllHeld(node.chain, node.orphans, fork) && AllDecode(fork) && AllDecode(chain)
    ensures Work(fork) > Work(chain) ==> !HeaviestHeld(node.net, node.chain, node.orphans, Work(chain), node.clock)
  {
    hide *;
    RunStarts(node, chain, k);
    PartsFork(node.net, chain, fork, k);
    ValidParts(node);
    PoolRepeatedBody(node, chain, k, chain[k]);
    DeliverChain(node, chain, k);
    DeliverFork(node, chain, fork, k);
    FortuneOfFork(node.net, chain, fork, k, node.clock);
  }

  lemma FortuneOfFork(net: Network, chain: seq<Block>, fork: seq<Block>, k: nat, now: int)
    requires net.Ideal() && IsValidChain(net, chain, now) && IsValidChain(net, fork, now) && ForksAfter(chain, fork, k)
    ensures AllDecode(chain) && AllDecode(fork) && AllHeld(chain, HidingPool(net, chain[k], fork[k + 1..]), fork)
    ensures Work(fork) > Work(chain) ==>
              !HeaviestHeld(net, chain, HidingPool(net, chain[k], fork[k + 1..]), Work(chain), now)
  {
    hide IsValidChain, Network.Ideal, ForksAfter, HidingPool, AllHeld, HeaviestHeld, Linked, Worked;
    ValidChainDecodes(net, chain, now);
    ValidChainDecodes(net, fork, now);
    ValidChainShape(net, chain, now);
    ValidChainShape(net, fork, now);
    ForkIsHeld(net, chain, fork, k);
    if Work(fork) > Work(chain) {
      HiddenBlockLosesFork(net, chain, fork, k, now);
    }
  }
}
