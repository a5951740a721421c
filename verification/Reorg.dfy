// Which branch of known blocks the node adopts (Blockchain._maybe_reorg in netcoin/chain.py).
module Reorg {
  import opened Ledger
  import opened Validation
  import opened Chainstate
  import opened ForkChoice
  import opened Checks
  import opened Sorting
  import Merkle

  // Known blocks by hash: the active chain, overlaid by the off-tip pool.
  function KnownBlocks(net: Network, chain: seq<Block>, orphans: Known): Known {
    Filed(net, chain) + orphans
  }

  ghost predicate HasAtMost(blocks: seq<Block>, work: nat) {
    AllDecode(blocks) && Work(blocks) <= work
  }

  ghost predicate DrawnFrom(net: Network, known: Known, blocks: seq<Block>) {
    forall b :: b in blocks ==> net.BlockHash(b) in known && known[net.BlockHash(b)] == b
  }

  // No valid chain of known blocks has more than `work`.
  ghost predicate Heaviest(net: Network, known: Known, work: nat, now: int) {
    forall blocks :: IsValidChain(net, blocks, now) && DrawnFrom(net, known, blocks) ==> HasAtMost(blocks, work)
  }

  // The candidate `tip` offers nothing beyond `work`.
  ghost predicate Considered(net: Network, known: Known, tip: Hash, work: nat, now: int) {
    forall branch :: IsBranch(known, tip, branch) && IsValidChain(net, branch, now) ==> HasAtMost(branch, work)
  }

  lemma BranchIsDrawn(net: Network, known: Known, tip: Hash, branch: seq<Block>)
    requires WellFiled(net, known) && IsBranch(known, tip, branch)
    ensures DrawnFrom(net, known, branch)
    ensures AllDecode(branch)
    ensures net.BlockHash(branch[|branch| - 1]) == tip
  {
    forall b | b in branch
      ensures net.BlockHash(b) in known && known[net.BlockHash(b)] == b && Worked(net, b)
    {
      var i :| 0 <= i < |branch| && branch[i] == b;
      if i < |branch| - 1 {
        assert FollowsIn(known, branch[i + 1 - 1], branch[i + 1]);
      }
    }
  }

  lemma AllConsideredIsHeaviest(net: Network, known: Known, candidates: seq<Hash>, work: nat, now: int)
    requires net.Ideal() && forall h :: h in known ==> h in candidates
    requires forall j :: 0 <= j < |candidates| ==> Considered(net, known, candidates[j], work, now)
    ensures Heaviest(net, known, work, now)
  {
    hide ValidateChain, IsValidChain, Network.Ideal, IsBranch, HasAtMost;
    forall blocks | IsValidChain(net, blocks, now) && DrawnFrom(net, known, blocks)
      ensures HasAtMost(blocks, work)
    {
      ValidChainIsNonEmpty(net, blocks, now);
      ValidChainIsBranch(net, known, blocks, now);
      var tip := net.BlockHash(blocks[|blocks| - 1]);
      assert blocks[|blocks| - 1] in blocks;
      var j :| 0 <= j < |candidates| && candidates[j] == tip;
    }
  }

  lemma ValidChainIsNonEmpty(net: Network, blocks: seq<Block>, now: int)
    requires IsValidChain(net, blocks, now)
    ensures blocks != []
  {
  }

  // A branch ending in the active tip ties with the active chain.
  lemma SameTipIsConsidered(net: Network, known: Known, tip: Hash, chain: seq<Block>, work: nat, now: int)
    requires net.Ideal() && WellFiled(net, known) && IsValidChain(net, chain, now)
    requires AllDecode(chain) && Work(chain) <= work
    requires chain != [] && tip == net.BlockHash(chain[|chain| - 1])
    ensures Considered(net, known, tip, work, now)
  {
    hide ValidateChain, IsValidChain, Network.Ideal, WellFiled;
    forall branch | IsBranch(known, tip, branch) && IsValidChain(net, branch, now)
      ensures HasAtMost(branch, work)
    {
      BranchIsDrawn(net, known, tip, branch);
      SameTipSameWork(net, branch, chain, now);
    }
  }

  // The heaviest valid branch of known blocks, or the active chain when none beats it.
  method BestChain(net: Network, known: Known, candidates: seq<Hash>, chain: seq<Block>, now: int)
    returns (best: seq<Block>)
    requires net.Ideal() && WellFiled(net, known) && IsValidChain(net, chain, now)
    requires forall h :: h in known <==> h in candidates
    ensures IsValidChain(net, best, now)
    ensures AllDecode(chain) && AllDecode(best) && Heaviest(net, known, Work(best), now)
    ensures best == chain || (Work(best) > Work(chain) && DrawnFrom(net, known, best))
  {
    hide ValidateChain, Network.Ideal, WellFiled, IsBranch, DrawnFrom;
    ValidChainIsNonEmpty(net, chain, now);
    ValidChainDecodes(net, chain, now);
    best := chain;
    var bestWork := CumulativeWork(chain);
    var genesisHash := net.BlockHash(chain[0]);
    var tip := net.BlockHash(chain[|chain| - 1]);
    for i := 0 to |candidates|
      invariant IsValidChain(net, best, now) && AllDecode(best) && Work(best) == bestWork >= Work(chain)
      invariant best == chain || (Work(best) > Work(chain) && DrawnFrom(net, known, best))
      invariant forall j :: 0 <= j < i ==> Considered(net, known, candidates[j], bestWork, now)
    {
      var before := bestWork;
      var branch := BuildBranch(candidates[i], known);
      if branch.Some? {
        BranchIsDrawn(net, known, candidates[i], branch.value);
        BranchIsNonEmpty(known, candidates[i], branch.value);
        if candidates[i] == tip {
          SameTipIsConsidered(net, known, tip, chain, bestWork, now);
        } else if net.BlockHash(branch.value[0]) != genesisHash {
          OtherGenesisIsInvalid(net, branch.value, chain, now);
        } else {
          var work := CumulativeWork(branch.value);
          if work > bestWork {
            var check := AssertValidChain(net, branch.value, now);
            if check.Ok? {
              best, bestWork := branch.value, work;
            }
          }
        }
        if candidates[i] != tip {
          OnlyBranchIsConsidered(net, known, candidates[i], branch.value, bestWork, now);
        }
      }
      forall j | 0 <= j < i
        ensures Considered(net, known, candidates[j], bestWork, now)
      {
        ConsideredGrows(net, known, candidates[j], before, bestWork, now);
      }
    }
    AllConsideredIsHeaviest(net, known, candidates, bestWork, now);
  }

  lemma OtherGenesisIsInvalid(net: Network, branch: seq<Block>, chain: seq<Block>, now: int)
    requires branch != [] && IsValidChain(net, chain, now)
    requires chain != [] && net.BlockHash(branch[0]) != net.BlockHash(chain[0])
    ensures !IsValidChain(net, branch, now)
  {
    hide ValidateChain;
    ValidChainShape(net, chain, now);
    if IsValidChain(net, branch, now) {
      ValidChainShape(net, branch, now);
    }
  }

  lemma BranchIsNonEmpty(known: Known, tip: Hash, branch: seq<Block>)
    requires IsBranch(known, tip, branch)
    ensures branch != []
  {
  }

  lemma OnlyBranchIsConsidered(net: Network, known: Known, tip: Hash, branch: seq<Block>, work: nat, now: int)
    requires IsBranch(known, tip, branch) && (IsValidChain(net, branch, now) ==> HasAtMost(branch, work))
    ensures Considered(net, known, tip, work, now)
  {
    hide ValidateChain, IsValidChain, HasAtMost, IsBranch;
    forall other | IsBranch(known, tip, other)
      ensures other == branch
    {
      BranchIsUnique(known, tip, branch, other);
    }
  }

  lemma ConsideredGrows(net: Network, known: Known, tip: Hash, less: nat, more: nat, now: int)
    requires Considered(net, known, tip, less, now) && less <= more
    ensures Considered(net, known, tip, more, now)
  {
    hide ValidateChain, IsValidChain, IsBranch;
  }

  // The overlay matters when a block with the same header hash but another body sits in the
  // pool: it then hides the active block. The known map stands for every block of both
  // places exactly when they agree wherever both have a hash.
  lemma OverlayHidesExactly(net: Network, chain: seq<Block>, orphans: Known)
    requires forall h :: h in orphans ==> net.BlockHash(orphans[h]) == h
    requires forall i, j :: 0 <= i < j < |chain| ==> net.BlockHash(chain[i]) != net.BlockHash(chain[j])
    ensures (forall b :: b in chain || b in orphans.Values ==>
             KnownBlocks(net, chain, orphans)[net.BlockHash(b)] == b) <==>
            (forall b :: b in chain && net.BlockHash(b) in orphans ==> orphans[net.BlockHash(b)] == b)
  {
    hide Filed;
    FiledPicks(net, chain);
    var known := KnownBlocks(net, chain, orphans);
    assert forall b :: b in orphans.Values ==> known[net.BlockHash(b)] == b;
    assert forall b :: b in chain ==>
             known[net.BlockHash(b)] == if net.BlockHash(b) in orphans then orphans[net.BlockHash(b)] else b;
  }

  lemma FiledPicks(net: Network, chain: seq<Block>)
    requires forall i, j :: 0 <= i < j < |chain| ==> net.BlockHash(chain[i]) != net.BlockHash(chain[j])
    ensures forall b :: b in chain ==> net.BlockHash(b) in Filed(net, chain) && Filed(net, chain)[net.BlockHash(b)] == b
  {
    hide Filed;
    forall b | b in chain
      ensures Filed(net, chain)[net.BlockHash(b)] == b
    {
      var filed := Filed(net, chain)[net.BlockHash(b)];
      var i :| 0 <= i < |chain| && chain[i] == b;
      var j :| 0 <= j < |chain| && chain[j] == filed;
    }
  }

  // ---- the blocks the node holds, on the chain or in the pool ----

  ghost predicate Held(chain: seq<Block>, orphans: Known, b: Block) {
    b in chain || b in orphans.Values
  }

  ghost predicate AllHeld(chain: seq<Block>, orphans: Known, blocks: seq<Block>) {
    forall b :: b in blocks ==> Held(chain, orphans, b)
  }

  // The pool has another body under the block's hash, and hides it from the walk.
  ghost predicate Hidden(net: Network, orphans: Known, b: Block) {
    net.BlockHash(b) in orphans && orphans[net.BlockHash(b)] != b
  }

  ghost predicate UsesHidden(net: Network, orphans: Known, blocks: seq<Block>) {
    exists b :: b in blocks && Hidden(net, orphans, b)
  }

  // No block of the chain is hidden.
  ghost predicate Agree(net: Network, chain: seq<Block>, orphans: Known) {
    forall b :: b in chain ==> !Hidden(net, orphans, b)
  }

  // No valid chain of held blocks has more than `work`.
  ghost predicate HeaviestHeld(net: Network, chain: seq<Block>, orphans: Known, work: nat, now: int) {
    forall blocks :: IsValidChain(net, blocks, now) && AllHeld(chain, orphans, blocks) ==> HasAtMost(blocks, work)
  }

  lemma ChainHashesDiffer(net: Network, chain: seq<Block>)
    requires net.Ideal() && Numbered(chain)
    ensures forall i, j :: 0 <= i < j < |chain| ==> net.BlockHash(chain[i]) != net.BlockHash(chain[j])
  {
    forall i, j | 0 <= i < j < |chain|
      ensures net.BlockHash(chain[i]) != net.BlockHash(chain[j])
    {
      assert chain[i].header.height == i && chain[j].header.height == j;
    }
  }

  // The search considers a chain of held blocks exactly when none of them is hidden.
  lemma ConsideredUnlessHidden(net: Network, chain: seq<Block>, orphans: Known, blocks: seq<Block>)
    requires net.Ideal() && Numbered(chain) && AllHeld(chain, orphans, blocks)
    requires forall h :: h in orphans ==> net.BlockHash(orphans[h]) == h
    ensures DrawnFrom(net, KnownBlocks(net, chain, orphans), blocks) <==>
            forall b :: b in blocks ==> !Hidden(net, orphans, b)
  {
    ChainHashesDiffer(net, chain);
    hide Network.Ideal, Filed, Numbered;
    FiledPicks(net, chain);
    var known := KnownBlocks(net, chain, orphans);
    forall b | b in blocks
      ensures (net.BlockHash(b) in known && known[net.BlockHash(b)] == b) <==> !Hidden(net, orphans, b)
    {
    }
  }

  // So optimality over the overlaid map is optimality over everything held, if and only if no
  // valid chain through a hidden block is heavier.
  lemma HeaviestHeldExactly(net: Network, chain: seq<Block>, orphans: Known, work: nat, now: int)
    requires net.Ideal() && Numbered(chain) && Heaviest(net, KnownBlocks(net, chain, orphans), work, now)
    requires forall h :: h in orphans ==> net.BlockHash(orphans[h]) == h
    ensures HeaviestHeld(net, chain, orphans, work, now) <==>
            forall blocks ::
              IsValidChain(net, blocks, now) && AllHeld(chain, orphans, blocks) && UsesHidden(net, orphans, blocks) ==>
                HasAtMost(blocks, work)
    ensures Agree(net, chain, orphans) ==> HeaviestHeld(net, chain, orphans, work, now)
  {
    hide IsValidChain, Network.Ideal, Numbered, HasAtMost, KnownBlocks, DrawnFrom, Hidden, AllHeld;
    forall blocks | IsValidChain(net, blocks, now) && AllHeld(chain, orphans, blocks)
      ensures HasAtMost(blocks, work) || UsesHidden(net, orphans, blocks)
    {
      ConsideredUnlessHidden(net, chain, orphans, blocks);
    }
    if Agree(net, chain, orphans) {
      forall blocks | IsValidChain(net, blocks, now) && AllHeld(chain, orphans, blocks)
        ensures forall b :: b in blocks ==> !Hidden(net, orphans, b)
      {
        NothingHeldIsHidden(net, chain, orphans, blocks);
      }
    }
  }

  lemma NothingHeldIsHidden(net: Network, chain: seq<Block>, orphans: Known, blocks: seq<Block>)
    requires Agree(net, chain, orphans) && AllHeld(chain, orphans, blocks)
    requires forall h :: h in orphans ==> net.BlockHash(orphans[h]) == h
    ensures forall b :: b in blocks ==> !Hidden(net, orphans, b)
  {
  }

  // Appending a block keeps the agreement exactly when the pool does not hide the block itself.
  lemma AppendKeepsAgreementExactly(net: Network, chain: seq<Block>, orphans: Known, b: Block)
    ensures Agree(net, chain + [b], orphans) <==> Agree(net, chain, orphans) && !Hidden(net, orphans, b)
  {
  }

  // With an empty pool only the active chain and its prefixes are known.
  lemma ChainAloneIsHeaviest(net: Network, chain: seq<Block>, now: int)
    requires net.Ideal() && IsValidChain(net, chain, now)
    ensures AllDecode(chain) && Heaviest(net, KnownBlocks(net, chain, map[]), Work(chain), now)
  {
    hide IsValidChain, Filed, Network.Ideal, Work, AllDecode;
    ValidChainDecodes(net, chain, now);
    forall blocks | IsValidChain(net, blocks, now) && DrawnFrom(net, KnownBlocks(net, chain, map[]), blocks)
      ensures HasAtMost(blocks, Work(chain))
    {
      OwnBlocksArePrefix(net, chain, blocks, now);
      PrefixWorksLess(chain, |blocks|);
    }
  }

  lemma OwnBlocksArePrefix(net: Network, chain: seq<Block>, blocks: seq<Block>, now: int)
    requires IsValidChain(net, chain, now) && IsValidChain(net, blocks, now)
    requires DrawnFrom(net, KnownBlocks(net, chain, map[]), blocks)
    ensures |blocks| <= |chain| && blocks == chain[..|blocks|]
  {
    hide IsValidChain, KnownBlocks;
    ValidChainShape(net, chain, now);
    ValidChainShape(net, blocks, now);
    hide Linked, Worked;
    forall i | 0 <= i < |blocks|
      ensures i < |chain| && blocks[i] == chain[i]
    {
      assert blocks[i] in blocks && blocks[i].header.height == i;
      OwnBlock(net, chain, blocks[i]);
    }
    if blocks != [] {
      assert blocks[|blocks| - 1] in blocks;
      assert |blocks| - 1 < |chain|;
    }
  }

  lemma OwnBlock(net: Network, chain: seq<Block>, b: Block)
    requires Numbered(chain)
    requires var known := KnownBlocks(net, chain, map[]); net.BlockHash(b) in known && known[net.BlockHash(b)] == b
    ensures 0 <= b.header.height < |chain| && chain[b.header.height] == b
  {
    hide Network.BlockHash;
    assert b in chain;
    var j :| 0 <= j < |chain| && chain[j] == b;
  }

  // ---- a hidden block loses a heavier fork ----

  // The block with its last transaction repeated: the same header over another body.
  function RepeatTail(b: Block): Block {
    RawBlock(b.header, b.transactions + [b.transactions[|b.transactions| - 1]])
  }

  // With an odd number of transactions the body still has the header's Merkle root.
  lemma RepeatTailKeepsRoot(net: Network, b: Block)
    requires |b.transactions| >= 3 && |b.transactions| % 2 == 1
    ensures net.MerkleRoot(RepeatTail(b).transactions) == net.MerkleRoot(b.transactions)
    ensures RepeatTail(b) != b && net.BlockHash(RepeatTail(b)) == net.BlockHash(b)
  {
    var ids := net.Txids(b.transactions);
    assert net.Txids(RepeatTail(b).transactions) == ids + [ids[|ids| - 1]];
    Merkle.DuplicatedTailKeepsRoot(net.pair, ids);
  }

  // A valid chain holds no block with a repeated txid after its first.
  lemma {:induction false} ValidBlocksRepeatNoTxid(net: Network, blocks: seq<Block>, now: int, i: nat)
    requires IsValidChain(net, blocks, now) && 1 <= i < |blocks|
    ensures Distinct(net.Txids(blocks[i].transactions))
    decreases |blocks|
  {
    hide ValidateBlock;
    var prefix, last := blocks[..|blocks| - 1], blocks[|blocks| - 1];
    if i < |prefix| {
      ValidBlocksRepeatNoTxid(net, prefix, now, i);
    } else {
      ValidBlockIsCommitted(net, last, prefix, ValidateChain(net, prefix, now).value, now);
    }
  }

  // The pool: some blocks, and the repeated-tail body under the hash of the block it hides.
  function HidingPool(net: Network, hidden: Block, tail: seq<Block>): Known {
    Filed(net, tail)[net.BlockHash(hidden) := RepeatTail(hidden)]
  }

  // Chain and fork share blocks 0 .. k, and block k has a body whose tail can be repeated.
  ghost predicate ForksAfter(chain: seq<Block>, fork: seq<Block>, k: nat) {
    && 1 <= k < |chain| && k < |fork| && chain[..k + 1] == fork[..k + 1]
    && |chain[k].transactions| >= 3 && |chain[k].transactions| % 2 == 1
  }

  lemma RepeatTailIsInvalid(net: Network, blocks: seq<Block>, b: Block, now: int)
    requires IsValidChain(net, blocks, now) && b.header.height >= 1
    ensures RepeatTail(b) !in blocks
  {
    hide ValidateChain;
    ValidChainShape(net, blocks, now);
    RepeatTailRepeatsTxid(net, b);
    if i :| 0 <= i < |blocks| && blocks[i] == RepeatTail(b) {
      ValidBlocksRepeatNoTxid(net, blocks, now, i);
      assert false;
    }
  }

  lemma RepeatTailRepeatsTxid(net: Network, b: Block)
    ensures !Distinct(net.Txids(RepeatTail(b).transactions))
  {
    var ids := net.Txids(RepeatTail(b).transactions);
    assert ids[|ids| - 2] == ids[|ids| - 1];
  }

  // All blocks of the tail come after the hidden one, which the chain may have reached already.
  ghost predicate HidesWithin(chain: seq<Block>, hidden: Block, tail: seq<Block>) {
    var k := hidden.header.height;
    && k >= 1 && (k < |chain| ==> chain[k] == hidden)
    && forall b :: b in tail ==> b.header.height > k
  }

  // A valid chain drawn from that pool and the active chain ends before the hidden block,
  // within the active chain.
  lemma DrawnStopsBelow(net: Network, chain: seq<Block>, hidden: Block, tail: seq<Block>, blocks: seq<Block>, now: int)
    requires net.Ideal() && IsValidChain(net, chain, now) && HidesWithin(chain, hidden, tail)
    requires IsValidChain(net, blocks, now)
    requires DrawnFrom(net, KnownBlocks(net, chain, HidingPool(net, hidden, tail)), blocks)
    ensures |blocks| <= hidden.header.height && |blocks| <= |chain| && blocks == chain[..|blocks|]
  {
    hide IsValidChain, Network.Ideal, DrawnFrom, KnownBlocks, HidingPool, Linked, Worked, Numbered, RepeatTail;
    ValidChainShape(net, chain, now);
    ValidChainShape(net, blocks, now);
    RepeatTailIsInvalid(net, blocks, hidden, now);
    var k := hidden.header.height;
    forall i | 0 <= i < |blocks|
      ensures StaysBelow(chain, blocks, k, i)
    {
      DrawnAt(net, chain, hidden, tail, blocks, i);
    }
    HeightsAreBelow(chain, blocks, k);
  }

  lemma DrawnAt(net: Network, chain: seq<Block>, hidden: Block, tail: seq<Block>, blocks: seq<Block>, i: nat)
    requires Numbered(chain) && Numbered(blocks) && HidesWithin(chain, hidden, tail) && RepeatTail(hidden) !in blocks
    requires i < |blocks| && DrawnFrom(net, KnownBlocks(net, chain, HidingPool(net, hidden, tail)), blocks)
    ensures StaysBelow(chain, blocks, hidden.header.height, i)
  {
    hide KnownBlocks, HidingPool, HidesWithin, RepeatTail;
    assert blocks[i] in blocks;
    DrawnBlock(net, chain, hidden, tail, blocks[i]);
  }

  ghost predicate StaysBelow(chain: seq<Block>, blocks: seq<Block>, k: int, i: int) {
    0 <= i < |blocks| && i != k && (i < k ==> i < |chain| && blocks[i] == chain[i])
  }

  lemma HeightsAreBelow(chain: seq<Block>, blocks: seq<Block>, k: int)
    requires k >= 0
    requires forall i :: 0 <= i < |blocks| ==> StaysBelow(chain, blocks, k, i)
    ensures |blocks| <= k && |blocks| <= |chain| && blocks == chain[..|blocks|]
  {
    if blocks != [] {
      var at := if |blocks| > k then k else |blocks| - 1;
      assert StaysBelow(chain, blocks, k, at);
    }
    forall i | 0 <= i < |blocks|
      ensures i < |chain| && blocks[i] == chain[i]
    {
      assert StaysBelow(chain, blocks, k, i);
    }
  }

  // A drawn block other than the repeated-tail body is a block of the chain, not the hidden
  // one, or comes after it.
  lemma DrawnBlock(net: Network, chain: seq<Block>, hidden: Block, tail: seq<Block>, b: Block)
    requires Numbered(chain) && HidesWithin(chain, hidden, tail)
    requires var known := KnownBlocks(net, chain, HidingPool(net, hidden, tail));
             net.BlockHash(b) in known && known[net.BlockHash(b)] == b
    requires b != RepeatTail(hidden)
    ensures b.header.height != hidden.header.height
    ensures 0 <= b.header.height < hidden.header.height ==>
              b.header.height < |chain| && b == chain[b.header.height]
  {
    hide Network.BlockHash;
    if b !in tail {
      assert b in chain;
      var i :| 0 <= i < |chain| && chain[i] == b;
    }
  }

  // So nothing held in that pool beats the active chain.
  lemma NothingBeatsChain(net: Network, chain: seq<Block>, hidden: Block, tail: seq<Block>, now: int)
    requires net.Ideal() && IsValidChain(net, chain, now) && HidesWithin(chain, hidden, tail) && AllDecode(chain)
    ensures Heaviest(net, KnownBlocks(net, chain, HidingPool(net, hidden, tail)), Work(chain), now)
  {
    hide IsValidChain, Network.Ideal, KnownBlocks, HidingPool, HidesWithin, DrawnFrom, Work, AllDecode;
    var known := KnownBlocks(net, chain, HidingPool(net, hidden, tail));
    forall blocks | IsValidChain(net, blocks, now) && DrawnFrom(net, known, blocks)
      ensures HasAtMost(blocks, Work(chain))
    {
      DrawnStopsBelow(net, chain, hidden, tail, blocks, now);
      PrefixWorksLess(chain, |blocks|);
    }
  }

  lemma {:induction false} PrefixWorksLess(blocks: seq<Block>, n: nat)
    requires n <= |blocks| && AllDecode(blocks)
    ensures AllDecode(blocks[..n]) && Work(blocks[..n]) <= Work(blocks)
    decreases |blocks|
  {
    if n < |blocks| {
      var prefix := blocks[..|blocks| - 1];
      PrefixWorksLess(prefix, n);
      assert prefix[..n] == blocks[..n];
    } else {
      assert blocks[..n] == blocks;
    }
  }

  // The failing input: a valid active chain, a valid fork through its block k that is heavier,
  // all of the fork's blocks held, and a pool in which every block is filed under its own hash
  // and carries its proof of work. The search finds nothing heavier than the active chain.
  lemma HiddenBlockLosesFork(net: Network, chain: seq<Block>, fork: seq<Block>, k: nat, now: int)
    requires net.Ideal() && IsValidChain(net, chain, now) && IsValidChain(net, fork, now) && ForksAfter(chain, fork, k)
    requires AllDecode(chain) && AllDecode(fork) && Work(fork) > Work(chain)
    ensures var pool := HidingPool(net, chain[k], fork[k + 1..]);
            && WellFiled(net, pool) && AllHeld(chain, pool, fork)
            && net.MerkleRoot(pool[net.BlockHash(chain[k])].transactions) == chain[k].header.merkleRoot
            && Heaviest(net, KnownBlocks(net, chain, pool), Work(chain), now)
            && !HeaviestHeld(net, chain, pool, Work(chain), now)
  {
    hide IsValidChain, Filed;
    var pool := HidingPool(net, chain[k], fork[k + 1..]);
    ValidChainShape(net, chain, now);
    ValidChainShape(net, fork, now);
    RepeatTailKeepsRoot(net, chain[k]);
    ChainRoot(net, chain, now, k);
    ForkHidesWithin(chain, fork, k, |fork|);
    NothingBeatsChain(net, chain, chain[k], fork[k + 1..], now);
    hide Network.Ideal, Heaviest, RepeatTail;
    ForkIsHeld(net, chain, fork, k);
    HidingPoolIsFiled(net, chain, fork, k);
    assert !HasAtMost(fork, Work(chain));
  }

  lemma {:induction false} ChainRoot(net: Network, blocks: seq<Block>, now: int, i: nat)
    requires IsValidChain(net, blocks, now) && 1 <= i < |blocks|
    ensures net.MerkleRoot(blocks[i].transactions) == blocks[i].header.merkleRoot
    decreases |blocks|
  {
    hide ValidateBlock;
    var prefix, last := blocks[..|blocks| - 1], blocks[|blocks| - 1];
    if i < |prefix| {
      ChainRoot(net, prefix, now, i);
    } else {
      ValidBlockIsCommitted(net, last, prefix, ValidateChain(net, prefix, now).value, now);
    }
  }

  lemma ForkHidesWithin(chain: seq<Block>, fork: seq<Block>, k: nat, n: nat)
    requires Numbered(chain) && Numbered(fork) && ForksAfter(chain, fork, k) && k < n <= |fork|
    ensures HidesWithin(chain, chain[k], fork[k + 1..n])
    ensures fork[k + 1..|fork|] == fork[k + 1..]
  {
    forall b | b in fork[k + 1..n]
      ensures b.header.height > k
    {
      var i :| 0 <= i < |fork[k + 1..n]| && fork[k + 1..n][i] == b;
      assert b == fork[k + 1 + i];
    }
  }

  lemma ForkIsHeld(net: Network, chain: seq<Block>, fork: seq<Block>, k: nat)
    requires net.Ideal() && Numbered(chain) && Numbered(fork) && ForksAfter(chain, fork, k)
    ensures AllHeld(chain, HidingPool(net, chain[k], fork[k + 1..]), fork)
  {
    var pool := HidingPool(net, chain[k], fork[k + 1..]);
    ChainHashesDiffer(net, fork);
    hide HidingPool, ForksAfter, Network.Ideal, Network.BlockHash;
    forall i | 0 <= i < |fork|
      ensures Held(chain, pool, fork[i])
    {
      if i <= k {
        SharedBlock(chain, fork, k, i);
      } else {
        PooledBlock(net, chain, fork, k, i);
      }
    }
  }

  lemma SharedBlock(chain: seq<Block>, fork: seq<Block>, k: nat, i: nat)
    requires ForksAfter(chain, fork, k) && i <= k
    ensures fork[i] == chain[i]
  {
    assert fork[i] == fork[..k + 1][i] == chain[..k + 1][i] == chain[i];
  }

  lemma PooledBlock(net: Network, chain: seq<Block>, fork: seq<Block>, k: nat, i: nat)
    requires ForksAfter(chain, fork, k) && k < i < |fork|
    requires forall i, j :: 0 <= i < j < |fork| ==> net.BlockHash(fork[i]) != net.BlockHash(fork[j])
    ensures fork[i] in HidingPool(net, chain[k], fork[k + 1..]).Values
  {
    SharedBlock(chain, fork, k, k);
    TailIsFiled(net, fork, k, i);
    hide Filed, RepeatTail, Network.BlockHash;
    assert net.BlockHash(fork[k]) != net.BlockHash(fork[i]);
    assert HidingPool(net, chain[k], fork[k + 1..])[net.BlockHash(fork[i])] == fork[i];
  }

  lemma TailIsFiled(net: Network, fork: seq<Block>, k: nat, i: nat)
    requires k < i < |fork|
    requires forall i, j :: 0 <= i < j < |fork| ==> net.BlockHash(fork[i]) != net.BlockHash(fork[j])
    ensures net.BlockHash(fork[i]) in Filed(net, fork[k + 1..])
    ensures Filed(net, fork[k + 1..])[net.BlockHash(fork[i])] == fork[i]
  {
    var tail := fork[k + 1..];
    hide Filed, Network.BlockHash;
    forall i, j | 0 <= i < j < |tail|
      ensures net.BlockHash(tail[i]) != net.BlockHash(tail[j])
    {
      assert tail[i] == fork[k + 1 + i] && tail[j] == fork[k + 1 + j];
    }
    FiledPicks(net, tail);
    assert fork[i] == tail[i - k - 1] && fork[i] in tail;
  }

  lemma HidingPoolIsFiled(net: Network, chain: seq<Block>, fork: seq<Block>, k: nat)
    requires ForksAfter(chain, fork, k) && forall b :: b in chain || b in fork ==> Worked(net, b)
    ensures WellFiled(net, HidingPool(net, chain[k], fork[k + 1..]))
  {
    hide Filed;
    assert chain[k] in chain;
    assert RepeatTail(chain[k]).header == chain[k].header;
  }
}
