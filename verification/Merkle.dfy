// Merkle layers and roots over an abstract pairing hash (netcoin/block.py). Each layer pairs
// neighbours, and an odd layer pairs its last hash with itself.
module Merkle {
  import opened Sorting

  type Hash = nat
  type Pairing = (Hash, Hash) -> Hash

  const ZERO_HASH: Hash := 0

  function PartnerOf(layer: seq<Hash>, i: nat): Hash
    requires 2 * i < |layer|
  {
    if 2 * i + 1 < |layer| then layer[2 * i + 1] else layer[2 * i]
  }

  function NextLayer(pair: Pairing, layer: seq<Hash>): (next: seq<Hash>)
    ensures |next| == (|layer| + 1) / 2
    ensures forall i :: 0 <= i < |next| ==> next[i] == pair(layer[2 * i], PartnerOf(layer, i))
  {
    seq<Hash>((|layer| + 1) / 2, i requires 0 <= i < (|layer| + 1) / 2 => pair(layer[2 * i], PartnerOf(layer, i)))
  }

  function Root(pair: Pairing, layer: seq<Hash>): Hash
    decreases |layer|
  {
    if layer == [] then ZERO_HASH
    else if |layer| == 1 then layer[0]
    else Root(pair, NextLayer(pair, layer))
  }

  method MerkleRoot(pair: Pairing, leaves: seq<Hash>) returns (root: Hash)
    ensures root == Root(pair, leaves)
  {
    if leaves == [] {
      return ZERO_HASH;
    }
    var layer := leaves;
    while |layer| > 1
      invariant layer != [] && Root(pair, layer) == Root(pair, leaves)
      decreases |layer|
    {
      ghost var start := layer;
      if |layer| % 2 == 1 {
        layer := layer + [layer[|layer| - 1]];
      }
      var next := [];
      var i := 0;
      while i < |layer|
        invariant i % 2 == 0 && i <= |layer| && |next| == i / 2
        invariant next == NextLayer(pair, start)[..i / 2]
      {
        assert layer[i + 1] == PartnerOf(start, i / 2);
        next := next + [pair(layer[i], layer[i + 1])];
        i := i + 2;
      }
      layer := next;
      assert layer == NextLayer(pair, start);
    }
    root := layer[0];
  }

  // ---- what a root commits to ----

  ghost predicate CollisionFree(pair: Pairing) {
    forall a, b, c, d :: pair(a, b) == pair(c, d) ==> a == c && b == d
  }

  // Leaf hashes are made in a domain of their own: no leaf is also the hash of a pair.
  ghost predicate LeavesApart(pair: Pairing, isLeaf: Hash -> bool) {
    forall a, b :: !isLeaf(pair(a, b))
  }

  // `x` is an inner hash `depth` pairings above leaves.
  ghost predicate IsNode(pair: Pairing, isLeaf: Hash -> bool, x: Hash, depth: nat)
    decreases depth
  {
    if depth == 0 then isLeaf(x)
    else exists a, b :: x == pair(a, b) && IsNode(pair, isLeaf, a, depth - 1) && IsNode(pair, isLeaf, b, depth - 1)
  }

  ghost predicate AllNodes(pair: Pairing, isLeaf: Hash -> bool, layer: seq<Hash>, depth: nat) {
    forall i :: 0 <= i < |layer| ==> IsNode(pair, isLeaf, layer[i], depth)
  }

  lemma {:induction false} DepthIsUnique(pair: Pairing, isLeaf: Hash -> bool, x: Hash, d: nat, e: nat)
    requires CollisionFree(pair) && LeavesApart(pair, isLeaf)
    requires IsNode(pair, isLeaf, x, d) && IsNode(pair, isLeaf, x, e)
    ensures d == e
    decreases d
  {
    if d > 0 && e > 0 {
      var a, b :| x == pair(a, b) && IsNode(pair, isLeaf, a, d - 1) && IsNode(pair, isLeaf, b, d - 1);
      DepthIsUnique(pair, isLeaf, a, d - 1, e - 1);
    }
  }

  lemma NextLayerIsOneDeeper(pair: Pairing, isLeaf: Hash -> bool, layer: seq<Hash>, depth: nat)
    requires AllNodes(pair, isLeaf, layer, depth)
    ensures AllNodes(pair, isLeaf, NextLayer(pair, layer), depth + 1)
  {
  }

  lemma {:induction false} RootDepth(pair: Pairing, isLeaf: Hash -> bool, layer: seq<Hash>, depth: nat)
    returns (above: nat)
    requires layer != [] && AllNodes(pair, isLeaf, layer, depth)
    ensures IsNode(pair, isLeaf, Root(pair, layer), depth + above)
    ensures above == 0 <==> |layer| == 1
    decreases |layer|
  {
    if |layer| == 1 {
      above := 0;
    } else {
      NextLayerIsOneDeeper(pair, isLeaf, layer, depth);
      var rest := RootDepth(pair, isLeaf, NextLayer(pair, layer), depth + 1);
      above := rest + 1;
    }
  }

  // A layer without repeats is determined by the next one. With repeats it is not: the
  // duplicated last hash of an odd layer could also have been there twice.
  lemma LayerIsDetermined(pair: Pairing, l1: seq<Hash>, l2: seq<Hash>)
    requires CollisionFree(pair) && Distinct(l1) && Distinct(l2)
    requires NextLayer(pair, l1) == NextLayer(pair, l2)
    ensures l1 == l2
  {
    var n1, n2 := NextLayer(pair, l1), NextLayer(pair, l2);
    assert |n1| == |n2|;
    forall i | 0 <= i < |n1|
      ensures l1[2 * i] == l2[2 * i] && PartnerOf(l1, i) == PartnerOf(l2, i)
    {
      assert n1[i] == n2[i];
    }
    if |l1| > 0 {
      var last := |n1| - 1;
      assert PartnerOf(l1, last) == PartnerOf(l2, last);
      assert |l1| == |l2|;
      forall k | 0 <= k < |l1|
        ensures l1[k] == l2[k]
      {
        assert k == 2 * (k / 2) || k == 2 * (k / 2) + 1;
        assert l1[2 * (k / 2)] == l2[2 * (k / 2)] && PartnerOf(l1, k / 2) == PartnerOf(l2, k / 2);
      }
    }
  }

  lemma NextLayerIsDistinct(pair: Pairing, layer: seq<Hash>)
    requires CollisionFree(pair) && Distinct(layer)
    ensures Distinct(NextLayer(pair, layer))
  {
    var next := NextLayer(pair, layer);
    forall i, j | 0 <= i < j < |next|
      ensures next[i] != next[j]
    {
      assert layer[2 * i] != layer[2 * j];
    }
  }

  // A layer at `depth` above the leaves, without repeats.
  ghost predicate IsLayer(pair: Pairing, isLeaf: Hash -> bool, layer: seq<Hash>, depth: nat) {
    layer != [] && Distinct(layer) && AllNodes(pair, isLeaf, layer, depth)
  }

  lemma NextIsLayer(pair: Pairing, isLeaf: Hash -> bool, layer: seq<Hash>, depth: nat)
    requires CollisionFree(pair) && IsLayer(pair, isLeaf, layer, depth)
    ensures IsLayer(pair, isLeaf, NextLayer(pair, layer), depth + 1)
  {
    NextLayerIsOneDeeper(pair, isLeaf, layer, depth);
    NextLayerIsDistinct(pair, layer);
  }

  lemma EqualRootsEndTogether(pair: Pairing, isLeaf: Hash -> bool, l1: seq<Hash>, l2: seq<Hash>, depth: nat)
    requires CollisionFree(pair) && LeavesApart(pair, isLeaf)
    requires IsLayer(pair, isLeaf, l1, depth) && IsLayer(pair, isLeaf, l2, depth)
    requires Root(pair, l1) == Root(pair, l2)
    ensures |l1| == 1 <==> |l2| == 1
  {
    hide Root, CollisionFree, LeavesApart, IsNode, AllNodes, Distinct;
    var a1 := RootDepth(pair, isLeaf, l1, depth);
    var a2 := RootDepth(pair, isLeaf, l2, depth);
    DepthIsUnique(pair, isLeaf, Root(pair, l1), depth + a1, depth + a2);
  }

  // Two lists of leaves without repeats and with the same root are the same list.
  lemma {:induction false} RootCommits(pair: Pairing, isLeaf: Hash -> bool, l1: seq<Hash>, l2: seq<Hash>, depth: nat)
    requires CollisionFree(pair) && LeavesApart(pair, isLeaf)
    requires IsLayer(pair, isLeaf, l1, depth) && IsLayer(pair, isLeaf, l2, depth)
    requires Root(pair, l1) == Root(pair, l2)
    ensures l1 == l2
    decreases |l1|
  {
    EqualRootsEndTogether(pair, isLeaf, l1, l2, depth);
    if |l1| > 1 {
      NextIsLayer(pair, isLeaf, l1, depth);
      NextIsLayer(pair, isLeaf, l2, depth);
      RootCommits(pair, isLeaf, NextLayer(pair, l1), NextLayer(pair, l2), depth + 1);
      LayerIsDetermined(pair, l1, l2);
    }
  }

  // Which hash goes where: an odd layer pairs its last hash with itself, left before right.
  lemma RootOfFew(pair: Pairing, a: Hash, b: Hash, c: Hash, d: Hash)
    ensures Root(pair, [a]) == a && Root(pair, [a, b]) == pair(a, b)
    ensures Root(pair, [a, b, c]) == pair(pair(a, b), pair(c, c))
    ensures Root(pair, [a, b, c, d]) == pair(pair(a, b), pair(c, d))
  {
    assert NextLayer(pair, [a, b]) == [pair(a, b)];
    assert NextLayer(pair, [a, b, c]) == [pair(a, b), pair(c, c)];
    assert NextLayer(pair, [a, b, c, d]) == [pair(a, b), pair(c, d)];
    assert NextLayer(pair, [pair(a, b), pair(c, c)]) == [pair(pair(a, b), pair(c, c))];
    assert NextLayer(pair, [pair(a, b), pair(c, d)]) == [pair(pair(a, b), pair(c, d))];
    assert Root(pair, [a, b, c]) == Root(pair, [pair(a, b), pair(c, c)]) == Root(pair, [pair(pair(a, b), pair(c, c))]);
    assert Root(pair, [a, b, c, d]) == Root(pair, [pair(a, b), pair(c, d)]);
    assert Root(pair, [pair(a, b), pair(c, d)]) == Root(pair, [pair(pair(a, b), pair(c, d))]);
  }

  // Why repeats have to be rejected: duplicating the last leaf of an odd list of three or
  // more leaves never changes the root.
  lemma DuplicatedTailKeepsRoot(pair: Pairing, leaves: seq<Hash>)
    requires |leaves| >= 3 && |leaves| % 2 == 1
    ensures Root(pair, leaves + [leaves[|leaves| - 1]]) == Root(pair, leaves)
  {
    DuplicatedTailKeepsLayer(pair, leaves);
    hide NextLayer;
  }

  lemma DuplicatedTailKeepsLayer(pair: Pairing, leaves: seq<Hash>)
    requires |leaves| >= 3 && |leaves| % 2 == 1
    ensures NextLayer(pair, leaves + [leaves[|leaves| - 1]]) == NextLayer(pair, leaves)
  {
    var longer := leaves + [leaves[|leaves| - 1]];
    forall i | 0 <= i < (|leaves| + 1) / 2
      ensures longer[2 * i] == leaves[2 * i] && PartnerOf(longer, i) == PartnerOf(leaves, i)
    {
    }
  }
}
