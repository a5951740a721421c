// Branches of known blocks and their work (Blockchain._build_branch in netcoin/chain.py and
// cumulative_work in netcoin/block.py).
module ForkChoice {
  import opened Wrappers
  import opened Ledger
  import opened Validation
  import opened Chainstate
  import CompactTarget

  type Known = map<Hash, Block>

  // Every known block is filed under its own hash and carries its proof of work.
  ghost predicate WellFiled(net: Network, known: Known) {
    forall h :: h in known ==> net.BlockHash(known[h]) == h && Worked(net, known[h])
  }

  // Blocks by hash; a later block replaces an earlier one with the same hash.
  function Filed(net: Network, blocks: seq<Block>): (known: Known)
    ensures forall h :: h in known ==> known[h] in blocks && net.BlockHash(known[h]) == h
    ensures forall b :: b in blocks ==> net.BlockHash(b) in known
  {
    if blocks == [] then map[]
    else
      var last := blocks[|blocks| - 1];
      assert blocks == blocks[..|blocks| - 1] + [last];
      Filed(net, blocks[..|blocks| - 1])[net.BlockHash(last) := last]
  }

  // ---- work ----

  ghost predicate AllDecode(blocks: seq<Block>) {
    forall b :: b in blocks ==> CompactTarget.BitsToTarget(b.header.bits).Ok?
  }

  function Work(blocks: seq<Block>): nat
    requires AllDecode(blocks)
  {
    if blocks == [] then 0
    else Work(blocks[..|blocks| - 1]) + CompactTarget.BitsWork(blocks[|blocks| - 1].header.bits)
  }

  method CumulativeWork(blocks: seq<Block>) returns (work: nat)
    requires AllDecode(blocks)
    ensures work == Work(blocks)
  {
    hide CompactTarget.BitsToTarget, Work;
    work := 0;
    NoWork();
    for i := 0 to |blocks|
      invariant work == Work(blocks[..i])
    {
      WorkStep(blocks, i);
      work := work + CompactTarget.TWO_256 / (CompactTarget.BitsToTarget(blocks[i].header.bits).value + 1);
    }
    assert blocks[..|blocks|] == blocks;
  }

  lemma NoWork()
    ensures Work([]) == 0
  {
  }

  lemma WorkStep(blocks: seq<Block>, i: nat)
    requires AllDecode(blocks) && i < |blocks|
    ensures CompactTarget.BitsToTarget(blocks[i].header.bits).Ok?
    ensures Work(blocks[..i + 1]) == Work(blocks[..i]) + CompactTarget.BitsWork(blocks[i].header.bits)
  {
    hide CompactTarget.BitsToTarget;
    assert blocks[i] in blocks;
    assert blocks[..i + 1][..i] == blocks[..i];
  }

  lemma WorkAppend(blocks: seq<Block>, b: Block)
    requires AllDecode(blocks + [b])
    ensures AllDecode(blocks) && Work(blocks + [b]) > Work(blocks)
    ensures Work(blocks + [b]) == Work(blocks) + CompactTarget.BitsWork(b.header.bits)
  {
    assert b in blocks + [b];
    assert forall c :: c in blocks ==> c in blocks + [b];
    assert (blocks + [b])[..|blocks|] == blocks;
    CompactTarget.WorkIsPositive(b.header.bits);
  }

  ghost function TargetOf(b: Block): nat
    requires CompactTarget.BitsToTarget(b.header.bits).Ok?
  {
    CompactTarget.BitsToTarget(b.header.bits).value
  }

  // Of two blocks on one parent, the one with the higher target never makes the heavier chain.
  lemma EasierBlockIsLighter(blocks: seq<Block>, b: Block, c: Block)
    requires AllDecode(blocks + [b]) && AllDecode(blocks + [c])
    ensures CompactTarget.BitsToTarget(b.header.bits).Ok? && CompactTarget.BitsToTarget(c.header.bits).Ok?
    ensures TargetOf(b) <= TargetOf(c) ==> Work(blocks + [b]) >= Work(blocks + [c])
  {
    assert b in blocks + [b] && c in blocks + [c];
    WorkAppend(blocks, b);
    WorkAppend(blocks, c);
    hide Work, CompactTarget.BitsWork, CompactTarget.BitsToTarget;
    if TargetOf(b) <= TargetOf(c) {
      CompactTarget.LowerTargetIsMoreWork(b.header.bits, c.header.bits);
    }
  }

  // If the two chains differ in their last block alone, the second one's is the harder to find.
  ghost predicate RivalIsHarder(chain: seq<Block>, rival: seq<Block>) {
    chain != [] && |rival| == |chain| && chain[..|chain| - 1] == rival[..|chain| - 1] ==>
      var b, c := chain[|chain| - 1], rival[|chain| - 1];
      && CompactTarget.BitsToTarget(b.header.bits).Ok? && CompactTarget.BitsToTarget(c.header.bits).Ok?
      && TargetOf(c) < TargetOf(b)
  }

  lemma HeavierRivalIsHarder(chain: seq<Block>, rival: seq<Block>)
    requires AllDecode(chain) && AllDecode(rival) && Work(rival) > Work(chain)
    ensures RivalIsHarder(chain, rival)
  {
    hide CompactTarget.BitsToTarget, AllDecode, Work, TargetOf;
    if chain != [] && |rival| == |chain| && chain[..|chain| - 1] == rival[..|chain| - 1] {
      var prefix, b, c := chain[..|chain| - 1], chain[|chain| - 1], rival[|chain| - 1];
      assert chain == prefix + [b] && rival == prefix + [c];
      EasierBlockIsLighter(prefix, b, c);
    }
  }

  // A run of blocks at one target is worth that many times the work of one.
  lemma {:induction false} UniformWork(blocks: seq<Block>, bits: nat)
    requires AllDecode(blocks) && CompactTarget.BitsToTarget(bits).Ok?
    requires forall b :: b in blocks ==> b.header.bits == bits
    ensures Work(blocks) == |blocks| * CompactTarget.BitsWork(bits)
  {
    hide CompactTarget.BitsToTarget, CompactTarget.BitsWork;
    if blocks != [] {
      UniformWork(blocks[..|blocks| - 1], bits);
    }
  }

  lemma {:induction false} WorkIsOfHeaders(b1: seq<Block>, b2: seq<Block>)
    requires AllDecode(b1) && AllDecode(b2) && |b1| == |b2|
    requires forall i :: 0 <= i < |b1| ==> b1[i].header == b2[i].header
    ensures Work(b1) == Work(b2)
  {
    if b1 != [] {
      WorkIsOfHeaders(b1[..|b1| - 1], b2[..|b2| - 1]);
    }
  }

  lemma ValidChainDecodes(net: Network, blocks: seq<Block>, now: int)
    requires IsValidChain(net, blocks, now)
    ensures AllDecode(blocks)
  {
    hide ValidateChain;
    ValidChainShape(net, blocks, now);
    forall b | b in blocks
      ensures CompactTarget.BitsToTarget(b.header.bits).Ok?
    {
      assert Worked(net, b);
    }
  }

  // ---- branches ----

  // `b` cannot be the first block of a branch: the walk to its parent goes on.
  predicate GoesOn(b: Block) {
    b.header.height != 0 && b.header.previousHash != ZERO_HASH
  }

  // `branch` leads from a height-0 block to the block filed under `tip`, each block the one
  // filed under its successor's previous hash.
  ghost predicate IsBranch(known: Known, tip: Hash, branch: seq<Block>) {
    && branch != []
    && tip in known && known[tip] == branch[|branch| - 1]
    && branch[0].header.height == 0
    && forall i :: 0 < i < |branch| ==> FollowsIn(known, branch[i - 1], branch[i])
  }

  ghost predicate FollowsIn(known: Known, parent: Block, b: Block) {
    GoesOn(b) && b.header.previousHash in known && known[b.header.previousHash] == parent
  }

  lemma BranchPrefix(known: Known, tip: Hash, branch: seq<Block>, k: nat)
    requires IsBranch(known, tip, branch) && 0 < k < |branch|
    ensures IsBranch(known, branch[k].header.previousHash, branch[..k])
  {
    assert FollowsIn(known, branch[k - 1], branch[k]);
    forall i | 0 < i < k
      ensures FollowsIn(known, branch[..k][i - 1], branch[..k][i])
    {
      assert FollowsIn(known, branch[i - 1], branch[i]);
    }
  }

  // A tip has at most one branch.
  lemma {:induction false} BranchIsUnique(known: Known, tip: Hash, b1: seq<Block>, b2: seq<Block>)
    requires IsBranch(known, tip, b1) && IsBranch(known, tip, b2)
    ensures b1 == b2
    decreases |b1|
  {
    var n1, n2 := |b1|, |b2|;
    assert n1 > 1 ==> FollowsIn(known, b1[n1 - 2], b1[n1 - 1]);
    assert n2 > 1 ==> FollowsIn(known, b2[n2 - 2], b2[n2 - 1]);
    if n1 > 1 {
      BranchPrefix(known, tip, b1, n1 - 1);
      BranchPrefix(known, tip, b2, n2 - 1);
      BranchIsUnique(known, b1[n1 - 1].header.previousHash, b1[..n1 - 1], b2[..n2 - 1]);
      assert b1 == b1[..n1 - 1] + [b1[n1 - 1]] && b2 == b2[..n2 - 1] + [b2[n2 - 1]];
    }
  }

  // The blocks walked so far from `tip`, oldest first, before the block filed under `current`.
  ghost predicate IsWalk(known: Known, tip: Hash, walked: seq<Block>, current: Hash) {
    if walked == [] then current == tip
    else
      && tip in known && known[tip] == walked[|walked| - 1]
      && GoesOn(walked[0]) && current == walked[0].header.previousHash
      && forall i :: 0 < i < |walked| ==> FollowsIn(known, walked[i - 1], walked[i])
  }

  // Any branch of `tip` continues the walk through `current`.
  lemma {:induction false} WalkIsOnBranch(known: Known, tip: Hash, walked: seq<Block>, current: Hash,
                                          branch: seq<Block>)
    requires IsWalk(known, tip, walked, current) && IsBranch(known, tip, branch)
    ensures |walked| < |branch| && IsBranch(known, current, branch[..|branch| - |walked|])
    decreases |walked|
  {
    if walked == [] {
      assert branch[..|branch|] == branch;
    } else {
      var previous := if |walked| == 1 then tip else walked[1].header.previousHash;
      forall i | 0 < i < |walked| - 1
        ensures FollowsIn(known, walked[1..][i - 1], walked[1..][i])
      {
        assert FollowsIn(known, walked[i], walked[i + 1]);
      }
      assert |walked| > 1 ==> FollowsIn(known, walked[0], walked[1]);
      WalkIsOnBranch(known, tip, walked[1..], previous, branch);
      var rest := branch[..|branch| - |walked| + 1];
      assert rest[|rest| - 1] == walked[0];
      assert |rest| > 1 ==> FollowsIn(known, rest[|rest| - 2], rest[|rest| - 1]);
      BranchPrefix(known, previous, rest, |rest| - 1);
      assert rest[..|rest| - 1] == branch[..|branch| - |walked|];
    }
  }

  // Walking back to the same hash twice means that no branch exists.
  lemma CycleHasNoBranch(known: Known, tip: Hash, walked: seq<Block>, current: Hash, earlier: nat, branch: seq<Block>)
    requires IsWalk(known, tip, walked, current)
    requires 0 < earlier <= |walked| && IsWalk(known, tip, walked[earlier..], current)
    ensures !IsBranch(known, tip, branch)
  {
    if IsBranch(known, tip, branch) {
      WalkIsOnBranch(known, tip, walked, current, branch);
      WalkIsOnBranch(known, tip, walked[earlier..], current, branch);
      BranchIsUnique(known, current, branch[..|branch| - |walked|], branch[..|branch| - (|walked| - earlier)]);
    }
  }

  lemma LastGoesOn(known: Known, tip: Hash, branch: seq<Block>)
    requires IsBranch(known, tip, branch) && |branch| > 1
    ensures GoesOn(branch[|branch| - 1])
  {
    assert FollowsIn(known, branch[|branch| - 2], branch[|branch| - 1]);
  }

  // Walk parent links from `tip` back to a height-0 block. The result is the branch of the
  // tip when there is one, and nothing exactly when there is none, cycles included.
  method BuildBranch(tip: Hash, known: Known) returns (r: Option<seq<Block>>)
    ensures r.Some? ==> IsBranch(known, tip, r.value)
    ensures r.None? ==> forall branch :: !IsBranch(known, tip, branch)
  {
    var walked: seq<Block> := [];
    var seen: set<Hash> := {};
    var current := tip;
    while current in known
      invariant IsWalk(known, tip, walked, current)
      invariant seen <= known.Keys
      invariant forall h :: h in seen ==> exists k :: 0 < k <= |walked| && IsWalk(known, tip, walked[k..], h)
      decreases known.Keys - seen
    {
      if current in seen {
        ghost var k :| 0 < k <= |walked| && IsWalk(known, tip, walked[k..], current);
        forall branch: seq<Block>
          ensures !IsBranch(known, tip, branch)
        {
          CycleHasNoBranch(known, tip, walked, current, k, branch);
        }
        return None;
      }
      var node := known[current];
      assert forall i :: 0 < i < |walked| ==> FollowsIn(known, ([node] + walked)[i], ([node] + walked)[i + 1]);
      if !GoesOn(node) {
        forall branch | IsBranch(known, tip, branch)
          ensures branch == [node] + walked && node.header.height == 0
        {
          EndOfWalk(known, tip, walked, current, branch);
        }
        if node.header.height != 0 {
          return None;
        }
        return Some([node] + walked);
      }
      WalkBack(known, tip, walked, current, seen);
      seen := seen + {current};
      walked := [node] + walked;
      current := node.header.previousHash;
    }
    forall branch: seq<Block>
      ensures !IsBranch(known, tip, branch)
    {
      if IsBranch(known, tip, branch) {
        WalkIsOnBranch(known, tip, walked, current, branch);
      }
    }
    return None;
  }

  lemma EndOfWalk(known: Known, tip: Hash, walked: seq<Block>, current: Hash, branch: seq<Block>)
    requires IsWalk(known, tip, walked, current) && IsBranch(known, tip, branch)
    requires current in known && !GoesOn(known[current])
    ensures branch == [known[current]] + walked && known[current].header.height == 0
  {
    WalkIsOnBranch(known, tip, walked, current, branch);
    var rest := branch[..|branch| - |walked|];
    if |rest| > 1 {
      LastGoesOn(known, current, rest);
    }
    assert rest == [known[current]];
    var whole := [known[current]] + walked;
    forall i | 0 < i < |whole|
      ensures FollowsIn(known, whole[i - 1], whole[i])
    {
      if i > 1 {
        assert FollowsIn(known, walked[i - 2], walked[i - 1]);
      }
    }
    BranchIsUnique(known, tip, branch, whole);
  }

  // One more step back: the walk and every earlier walk are suffixes of the new one.
  lemma WalkBack(known: Known, tip: Hash, walked: seq<Block>, current: Hash, seen: set<Hash>)
    requires IsWalk(known, tip, walked, current) && current in known && GoesOn(known[current])
    requires forall h :: h in seen ==> exists k :: 0 < k <= |walked| && IsWalk(known, tip, walked[k..], h)
    ensures var longer := [known[current]] + walked;
            && IsWalk(known, tip, longer, known[current].header.previousHash)
            && forall h :: h in seen + {current} ==> exists k :: 0 < k <= |longer| && IsWalk(known, tip, longer[k..], h)
  {
    var longer := [known[current]] + walked;
    forall i | 0 < i < |longer|
      ensures FollowsIn(known, longer[i - 1], longer[i])
    {
      if i > 1 {
        assert FollowsIn(known, walked[i - 2], walked[i - 1]);
      }
    }
    assert longer[1..] == walked;
    forall h | h in seen + {current}
      ensures exists k :: 0 < k <= |longer| && IsWalk(known, tip, longer[k..], h)
    {
      if h == current {
        assert IsWalk(known, tip, longer[1..], h);
      } else {
        var k :| 0 < k <= |walked| && IsWalk(known, tip, walked[k..], h);
        assert longer[k + 1..] == walked[k..];
      }
    }
  }

  // ---- what fork choice compares ----

  // A valid chain made of known blocks is the branch of its tip.
  lemma ValidChainIsBranch(net: Network, known: Known, blocks: seq<Block>, now: int)
    requires net.Ideal() && IsValidChain(net, blocks, now)
    requires forall b :: b in blocks ==> net.BlockHash(b) in known && known[net.BlockHash(b)] == b
    ensures IsBranch(known, net.BlockHash(blocks[|blocks| - 1]), blocks)
  {
    hide ValidateChain;
    ValidChainShape(net, blocks, now);
    assert forall h :: net.headerHash(h) != ZERO_HASH;
    forall i | 0 < i < |blocks|
      ensures FollowsIn(known, blocks[i - 1], blocks[i])
    {
      assert blocks[i].header.previousHash == net.BlockHash(blocks[i - 1]);
      assert blocks[i].header.height == i;
      assert blocks[i - 1] in blocks;
    }
  }

  // Two valid chains with the same tip hash have the same headers throughout.
  lemma SameTipSameHeaders(net: Network, b1: seq<Block>, b2: seq<Block>, now: int)
    requires net.Ideal() && IsValidChain(net, b1, now) && IsValidChain(net, b2, now)
    requires net.BlockHash(b1[|b1| - 1]) == net.BlockHash(b2[|b2| - 1])
    ensures |b1| == |b2| && forall i :: 0 <= i < |b1| ==> b1[i].header == b2[i].header
  {
    hide ValidateChain;
    ValidChainShape(net, b1, now);
    ValidChainShape(net, b2, now);
    HeadersAgree(net, b1, b2, 0);
  }

  lemma {:induction false} HeadersAgree(net: Network, b1: seq<Block>, b2: seq<Block>, from: nat)
    requires net.Ideal() && b1 != [] && b2 != []
    requires Numbered(b1) && Numbered(b2) && Linked(net, b1) && Linked(net, b2)
    requires net.BlockHash(b1[|b1| - 1]) == net.BlockHash(b2[|b2| - 1])
    requires from < |b1|
    ensures |b1| == |b2| && forall i :: from <= i < |b1| ==> b1[i].header == b2[i].header
    decreases |b1| - from
  {
    assert b1[|b1| - 1].header == b2[|b2| - 1].header;
    if from < |b1| - 1 {
      HeadersAgree(net, b1, b2, from + 1);
      assert b1[from + 1].header.previousHash == net.BlockHash(b1[from]);
      assert b2[from + 1].header.previousHash == net.BlockHash(b2[from]);
    }
  }

  lemma SameTipSameWork(net: Network, b1: seq<Block>, b2: seq<Block>, now: int)
    requires net.Ideal() && IsValidChain(net, b1, now) && IsValidChain(net, b2, now)
    requires net.BlockHash(b1[|b1| - 1]) == net.BlockHash(b2[|b2| - 1])
    ensures AllDecode(b1) && AllDecode(b2) && Work(b1) == Work(b2)
  {
    hide ValidateChain;
    ValidChainDecodes(net, b1, now);
    ValidChainDecodes(net, b2, now);
    SameTipSameHeaders(net, b1, b2, now);
    WorkIsOfHeaders(b1, b2);
  }
}
