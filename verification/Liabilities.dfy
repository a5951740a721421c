// Merkle proofs of liabilities (netcoin/exchange_reserves.py), over abstract leaf and parent
// hashes.
module Liabilities {
  import opened Wrappers
  import Merkle

  type Hash = Merkle.Hash

  datatype Leaf = Leaf(customer: string, amount: int, nonce: string)

  datatype Hashing = Hashing(leaf: Leaf -> Hash, parent: Merkle.Pairing) {
    // No collisions, and leaves and parents hashed in domains of their own.
    ghost predicate Ideal() {
      && Merkle.CollisionFree(parent)
      && (forall a, b :: leaf(a) == leaf(b) ==> a == b)
      && (forall a, x, y :: leaf(a) != parent(x, y))
    }
  }

  // A missing or empty hash is a malformed step.
  datatype ProofStep = ProofStep(onLeft: bool, hash: Option<Hash>)

  datatype Proof = NotFound | Found(leaf: Leaf, root: Hash, steps: seq<ProofStep>)

  // ---- the order of the leaves ----

  predicate NotAfter(a: string, b: string) {
    if a == [] then true
    else if b == [] then false
    else if a[0] == b[0] then NotAfter(a[1..], b[1..])
    else a[0] < b[0]
  }

  function InsertLeaf(leaves: seq<Leaf>, leaf: Leaf): seq<Leaf> {
    if leaves == [] then [leaf]
    else if NotAfter(leaves[|leaves| - 1].customer, leaf.customer) then leaves + [leaf]
    else InsertLeaf(leaves[..|leaves| - 1], leaf) + [leaves[|leaves| - 1]]
  }

  // A stable sort by customer.
  function SortLeaves(leaves: seq<Leaf>): seq<Leaf> {
    if leaves == [] then [] else InsertLeaf(SortLeaves(leaves[..|leaves| - 1]), leaves[|leaves| - 1])
  }

  lemma {:induction false} InsertKeepsLeaves(leaves: seq<Leaf>, leaf: Leaf)
    ensures multiset(InsertLeaf(leaves, leaf)) == multiset(leaves) + multiset{leaf}
  {
    if leaves != [] {
      assert leaves == leaves[..|leaves| - 1] + [leaves[|leaves| - 1]];
      InsertKeepsLeaves(leaves[..|leaves| - 1], leaf);
    }
  }

  lemma {:induction false} SortKeepsLeaves(leaves: seq<Leaf>)
    ensures multiset(SortLeaves(leaves)) == multiset(leaves)
  {
    if leaves != [] {
      assert leaves == leaves[..|leaves| - 1] + [leaves[|leaves| - 1]];
      SortKeepsLeaves(leaves[..|leaves| - 1]);
      InsertKeepsLeaves(SortLeaves(leaves[..|leaves| - 1]), leaves[|leaves| - 1]);
    }
  }

  lemma SortKeepsMembers(leaves: seq<Leaf>, leaf: Leaf)
    ensures leaf in SortLeaves(leaves) <==> leaf in leaves
  {
    SortKeepsLeaves(leaves);
    assert leaf in SortLeaves(leaves) <==> leaf in multiset(SortLeaves(leaves));
    assert leaf in leaves <==> leaf in multiset(leaves);
  }

  ghost predicate InOrder(leaves: seq<Leaf>) {
    forall i, j :: 0 <= i < j < |leaves| ==> NotAfter(leaves[i].customer, leaves[j].customer)
  }

  lemma {:induction false} NotAfterIsTransitive(a: string, b: string, c: string)
    requires NotAfter(a, b) && NotAfter(b, c)
    ensures NotAfter(a, c)
  {
    if a != [] && b != [] && c != [] && a[0] == b[0] == c[0] {
      NotAfterIsTransitive(a[1..], b[1..], c[1..]);
    }
  }

  lemma {:induction false} NotAfterIsTotal(a: string, b: string)
    ensures NotAfter(a, b) || NotAfter(b, a)
    ensures NotAfter(a, b) && NotAfter(b, a) ==> a == b
  {
    if a != [] && b != [] && a[0] == b[0] {
      NotAfterIsTotal(a[1..], b[1..]);
      assert a == [a[0]] + a[1..] && b == [b[0]] + b[1..];
    }
  }

  lemma {:induction false} InsertKeepsOrder(leaves: seq<Leaf>, leaf: Leaf)
    requires InOrder(leaves)
    ensures InOrder(InsertLeaf(leaves, leaf))
    ensures forall l :: l in InsertLeaf(leaves, leaf) ==> l in leaves || l == leaf
  {
    if leaves != [] {
      var rest, last := leaves[..|leaves| - 1], leaves[|leaves| - 1];
      NotAfterIsTotal(last.customer, leaf.customer);
      if NotAfter(last.customer, leaf.customer) {
        forall i | 0 <= i < |leaves|
          ensures NotAfter(leaves[i].customer, leaf.customer)
        {
          if i < |leaves| - 1 {
            NotAfterIsTransitive(leaves[i].customer, last.customer, leaf.customer);
          }
        }
      } else {
        InsertKeepsOrder(rest, leaf);
        var inserted := InsertLeaf(rest, leaf);
        forall i | 0 <= i < |inserted|
          ensures NotAfter(inserted[i].customer, last.customer)
        {
          assert inserted[i] in inserted;
        }
      }
    }
  }

  // The leaves come out by customer, in the order of their names' characters.
  lemma {:induction false} SortOrders(leaves: seq<Leaf>)
    ensures InOrder(SortLeaves(leaves))
  {
    if leaves != [] {
      SortOrders(leaves[..|leaves| - 1]);
      InsertKeepsOrder(SortLeaves(leaves[..|leaves| - 1]), leaves[|leaves| - 1]);
    }
  }

  // ---- levels ----

  function LeafHashes(h: Hashing, leaves: seq<Leaf>): (hashes: seq<Hash>)
    ensures |hashes| == |leaves|
    ensures forall i :: 0 <= i < |leaves| ==> hashes[i] == h.leaf(leaves[i])
  {
    seq<Hash>(|leaves|, i requires 0 <= i < |leaves| => h.leaf(leaves[i]))
  }

  function Level(h: Hashing, leaves: seq<Leaf>, j: nat): seq<Hash> {
    if j == 0 then LeafHashes(h, leaves) else Merkle.NextLayer(h.parent, Level(h, leaves, j - 1))
  }

  function RootOf(h: Hashing, leaves: seq<Leaf>): Hash {
    Merkle.Root(h.parent, LeafHashes(h, leaves))
  }

  // Folding a proof into a hash, step by step; nothing when a step is malformed.
  function Fold(h: Hashing, start: Hash, steps: seq<ProofStep>): Option<Hash> {
    if steps == [] then Some(start)
    else
      var last := steps[|steps| - 1];
      match Fold(h, start, steps[..|steps| - 1])
      case None => None
      case Some(current) =>
        if last.hash.None? then None
        else if last.onLeft then Some(h.parent(last.hash.value, current))
        else Some(h.parent(current, last.hash.value))
  }

  predicate Verifies(h: Hashing, leaf: Leaf, steps: seq<ProofStep>, root: Hash) {
    Fold(h, h.leaf(leaf), steps) == Some(root)
  }

  // A sibling on the left is hashed first.
  lemma FoldSides(h: Hashing, start: Hash, sibling: Hash)
    ensures Fold(h, start, [ProofStep(true, Some(sibling))]) == Some(h.parent(sibling, start))
    ensures Fold(h, start, [ProofStep(false, Some(sibling))]) == Some(h.parent(start, sibling))
  {
    assert [ProofStep(true, Some(sibling))][..0] == [] == [ProofStep(false, Some(sibling))][..0];
  }

  lemma {:induction false} MalformedStaysMalformed(h: Hashing, start: Hash, steps: seq<ProofStep>, k: nat)
    requires k <= |steps| && Fold(h, start, steps[..k]).None?
    ensures Fold(h, start, steps).None?
  {
    if k < |steps| {
      assert steps[..|steps| - 1][..k] == steps[..k];
      MalformedStaysMalformed(h, start, steps[..|steps| - 1], k);
    } else {
      assert steps[..k] == steps;
    }
  }

  method VerifyLiabilityProof(h: Hashing, leaf: Leaf, steps: seq<ProofStep>, root: Hash) returns (ok: bool)
    ensures ok == Verifies(h, leaf, steps, root)
  {
    var current := h.leaf(leaf);
    for k := 0 to |steps|
      invariant Fold(h, h.leaf(leaf), steps[..k]) == Some(current)
    {
      assert steps[..k + 1][..k] == steps[..k];
      if steps[k].hash.None? {
        MalformedStaysMalformed(h, h.leaf(leaf), steps, k + 1);
        return false;
      }
      if steps[k].onLeft {
        current := h.parent(steps[k].hash.value, current);
      } else {
        current := h.parent(current, steps[k].hash.value);
      }
    }
    assert steps[..|steps|] == steps;
    return current == root;
  }

  // ---- the tree ----

  // One level up: each hash with its right neighbour, the last of an odd level with itself.
  method PairUp(h: Hashing, level: seq<Hash>) returns (next: seq<Hash>)
    ensures next == Merkle.NextLayer(h.parent, level)
  {
    next := [];
    var i := 0;
    while i < |level|
      invariant i % 2 == 0 && i <= |level| + 1 && |next| == i / 2
      invariant next == Merkle.NextLayer(h.parent, level)[..i / 2]
    {
      var right := if i + 1 < |level| then level[i + 1] else level[i];
      assert right == Merkle.PartnerOf(level, i / 2) && level[i] == level[2 * (i / 2)];
      next := next + [h.parent(level[i], right)];
      i := i + 2;
    }
    assert next == Merkle.NextLayer(h.parent, level);
  }

  lemma FirstLevel(h: Hashing, leaves: seq<Leaf>)
    ensures Level(h, leaves, 0) == LeafHashes(h, leaves)
  {
  }

  lemma NextLevel(h: Hashing, leaves: seq<Leaf>, j: nat)
    requires |Level(h, leaves, j)| > 1
    ensures Level(h, leaves, j + 1) == Merkle.NextLayer(h.parent, Level(h, leaves, j))
    ensures Level(h, leaves, j + 1) != [] && |Level(h, leaves, j + 1)| < |Level(h, leaves, j)|
    ensures Merkle.Root(h.parent, Level(h, leaves, j + 1)) == Merkle.Root(h.parent, Level(h, leaves, j))
  {
  }

  // The sibling of a position: the other one of its pair, or itself at the end of an odd level.
  function Sibling(level: seq<Hash>, index: nat): Hash
    requires index < |level|
  {
    var other := if index % 2 == 0 then index + 1 else index - 1;
    if other >= |level| then level[index] else level[other]
  }

  class LiabilityTree {
    const h: Hashing
    const leaves: seq<Leaf>
    var levels: seq<seq<Hash>>

    ghost predicate Valid()
      reads this
    {
      && (forall j :: 0 <= j < |levels| ==> levels[j] == Level(h, leaves, j) && levels[j] != [])
      && (leaves == [] <==> levels == [])
      && (leaves != [] ==> |levels[|levels| - 1]| == 1 && levels[|levels| - 1][0] == RootOf(h, leaves))
    }

    constructor (hashing: Hashing, liabilities: seq<Leaf>)
      ensures Valid() && h == hashing && leaves == SortLeaves(liabilities)
    {
      h := hashing;
      leaves := SortLeaves(liabilities);
      levels := [];
      new;
      hide Level, Merkle.NextLayer, SortLeaves;
      FirstLevel(h, leaves);
      if leaves != [] {
        levels := [LeafHashes(h, leaves)];
        while |levels[|levels| - 1]| > 1
          invariant levels != []
          invariant forall j :: 0 <= j < |levels| ==> levels[j] == Level(h, leaves, j) && levels[j] != []
          invariant Merkle.Root(h.parent, levels[|levels| - 1]) == RootOf(h, leaves)
          decreases |levels[|levels| - 1]|
        {
          var next := PairUp(h, levels[|levels| - 1]);
          NextLevel(h, leaves, |levels| - 1);
          levels := levels + [next];
        }
      }
    }

    method ProofForCustomer(customer: string) returns (p: Proof)
      requires Valid()
      ensures p.NotFound? <==> forall leaf :: leaf in leaves ==> leaf.customer != customer
      ensures p.Found? ==> p.leaf in leaves && p.leaf.customer == customer && p.root == RootOf(h, leaves)
      ensures p.Found? ==> Verifies(h, p.leaf, p.steps, p.root)
    {
      var index := 0;
      while index < |leaves| && leaves[index].customer != customer
        invariant index <= |leaves|
        invariant forall i :: 0 <= i < index ==> leaves[i].customer != customer
      {
        index := index + 1;
      }
      if index == |leaves| {
        return NotFound;
      }
      assert levels != [];
      var steps: seq<ProofStep> := [];
      var idx: nat := index;
      for j := 0 to |levels| - 1
        invariant idx < |levels[j]|
        invariant Fold(h, h.leaf(leaves[index]), steps) == Some(levels[j][idx])
      {
        ParentOfPair(h, levels[j], idx);
        assert levels[j + 1] == Merkle.NextLayer(h.parent, levels[j]);
        var step := ProofStep(idx % 2 != 0, Some(Sibling(levels[j], idx)));
        assert (steps + [step])[..|steps|] == steps;
        steps := steps + [step];
        idx := idx / 2;
      }
      assert idx == 0;
      return Found(leaves[index], levels[|levels| - 1][0], steps);
    }
  }

  // Hashing a position with its sibling, in the order its parity says, gives its parent.
  lemma ParentOfPair(h: Hashing, level: seq<Hash>, idx: nat)
    requires idx < |level|
    ensures idx / 2 < |Merkle.NextLayer(h.parent, level)|
    ensures Merkle.NextLayer(h.parent, level)[idx / 2] ==
            if idx % 2 != 0 then h.parent(Sibling(level, idx), level[idx])
            else h.parent(level[idx], Sibling(level, idx))
  {
  }

  // ---- soundness ----

  // A leaf hash that folds into some hash of level j started from a leaf of the tree.
  lemma {:induction false} FoldedFromLeaf(h: Hashing, leaves: seq<Leaf>, leaf: Leaf, steps: seq<ProofStep>, j: nat,
                                          i: nat)
    requires h.Ideal() && i < |Level(h, leaves, j)|
    requires Fold(h, h.leaf(leaf), steps) == Some(Level(h, leaves, j)[i])
    ensures leaf in leaves
    decreases j
  {
    var x := Level(h, leaves, j)[i];
    if j == 0 {
      assert x == h.leaf(leaves[i]);
    } else {
      var below := Level(h, leaves, j - 1);
      assert x == h.parent(below[2 * i], Merkle.PartnerOf(below, i));
      if steps != [] {
        var before := Fold(h, h.leaf(leaf), steps[..|steps| - 1]);
        assert before.value == below[2 * i] || before.value == Merkle.PartnerOf(below, i);
        var k := if before.value == below[2 * i] || 2 * i + 1 >= |below| then 2 * i else 2 * i + 1;
        FoldedFromLeaf(h, leaves, leaf, steps[..|steps| - 1], j - 1, k);
      }
    }
  }

  lemma {:induction false} RootIsOnSomeLevel(h: Hashing, leaves: seq<Leaf>, j: nat) returns (top: nat)
    requires Level(h, leaves, j) != []
    ensures |Level(h, leaves, top)| == 1 && Level(h, leaves, top)[0] == Merkle.Root(h.parent, Level(h, leaves, j))
    decreases |Level(h, leaves, j)|
  {
    if |Level(h, leaves, j)| == 1 {
      top := j;
    } else {
      top := RootIsOnSomeLevel(h, leaves, j + 1);
    }
  }

  // Whatever its length and contents, a proof that verifies against the root names a leaf
  // that is in the tree, with that very amount and nonce.
  lemma VerifiedLeafIsInTree(h: Hashing, leaves: seq<Leaf>, leaf: Leaf, steps: seq<ProofStep>)
    requires h.Ideal() && leaves != []
    requires Verifies(h, leaf, steps, RootOf(h, leaves))
    ensures leaf in leaves
  {
    var top := RootIsOnSomeLevel(h, leaves, 0);
    FoldedFromLeaf(h, leaves, leaf, steps, top, 0);
  }

  lemma {:induction false} StepsUp(h: Hashing, leaves: seq<Leaf>, i: nat, j: nat)
    returns (steps: seq<ProofStep>, k: nat)
    requires i < |leaves|
    ensures k < |Level(h, leaves, j)| && Fold(h, h.leaf(leaves[i]), steps) == Some(Level(h, leaves, j)[k])
  {
    hide Merkle.NextLayer, Sibling, Fold;
    if j == 0 {
      steps, k := [], i;
      FoldNothing(h, h.leaf(leaves[i]));
    } else {
      steps, k := StepsUp(h, leaves, i, j - 1);
      var below := Level(h, leaves, j - 1);
      ParentOfPair(h, below, k);
      FoldOneMore(h, h.leaf(leaves[i]), steps, below[k], ProofStep(k % 2 != 0, Some(Sibling(below, k))));
      steps, k := steps + [ProofStep(k % 2 != 0, Some(Sibling(below, k)))], k / 2;
    }
  }

  lemma FoldNothing(h: Hashing, start: Hash)
    ensures Fold(h, start, []) == Some(start)
  {
  }

  lemma FoldOneMore(h: Hashing, start: Hash, steps: seq<ProofStep>, current: Hash, step: ProofStep)
    requires Fold(h, start, steps) == Some(current) && step.hash.Some?
    ensures Fold(h, start, steps + [step]) ==
            Some(if step.onLeft then h.parent(step.hash.value, current) else h.parent(current, step.hash.value))
  {
    assert (steps + [step])[..|steps|] == steps;
  }

  // The root certifies exactly the leaves of the tree.
  lemma RootCertifiesExactly(h: Hashing, leaves: seq<Leaf>, leaf: Leaf)
    requires h.Ideal() && leaves != []
    ensures leaf in leaves <==> exists steps :: Verifies(h, leaf, steps, RootOf(h, leaves))
  {
    if leaf in leaves {
      var i :| 0 <= i < |leaves| && leaves[i] == leaf;
      var top := RootIsOnSomeLevel(h, leaves, 0);
      var steps, k := StepsUp(h, leaves, i, top);
      assert Verifies(h, leaf, steps, RootOf(h, leaves));
    }
    forall steps | Verifies(h, leaf, steps, RootOf(h, leaves))
      ensures leaf in leaves
    {
      VerifiedLeafIsInTree(h, leaves, leaf, steps);
    }
  }
}
