// Spending among unconfirmed transactions (netcoin/mempool.py, netcoin/chain.py): ancestor and
// descendant counts, and connected packages.
module MempoolGraph {
  import opened Ledger
  import opened Reachability

  function Inputs(tx: Transaction): set<Hash> {
    set i | i in tx.inputs :: i.prevout.txid
  }

  // The edges from each pool transaction to the transactions it spends, in the pool or not.
  function Spending(net: Network, pool: seq<Transaction>): Edges {
    set tx, i | tx in pool && i in tx.inputs :: (net.txid(tx), i.prevout.txid)
  }

  // Pool transactions with equal txids spend the same transactions.
  ghost predicate Consistent(net: Network, pool: seq<Transaction>) {
    forall a, b :: a in pool && b in pool && net.txid(a) == net.txid(b) ==> Inputs(a) == Inputs(b)
  }

  lemma TxidsFixInputs(net: Network, pool: seq<Transaction>)
    requires net.Ideal()
    ensures Consistent(net, pool)
  {
    forall a, b | a in pool && b in pool && net.txid(a) == net.txid(b) ensures Inputs(a) == Inputs(b) {
      assert a.Stripped() == b.Stripped();
      hide Network.Ideal;
      StrippedFixesInputs(a, b);
      StrippedFixesInputs(b, a);
    }
  }

  lemma StrippedFixesInputs(a: Transaction, b: Transaction)
    requires a.Stripped() == b.Stripped()
    ensures Inputs(a) <= Inputs(b)
  {
    forall h | h in Inputs(a) ensures h in Inputs(b) {
      var k :| 0 <= k < |a.inputs| && a.inputs[k].prevout.txid == h;
      assert a.Stripped().inputs[k].prevout == b.Stripped().inputs[k].prevout;
      assert b.inputs[k] in b.inputs;
    }
  }

  // The pool transactions that a transaction spends, directly or through others.
  ghost predicate IsAncestor(net: Network, pool: seq<Transaction>, tx: Transaction, a: Hash) {
    a in Ids(net, pool) && exists h :: h in Inputs(tx) && (h == a || Reaches(Spending(net, pool), h, a))
  }

  ghost function Ancestors(net: Network, pool: seq<Transaction>, tx: Transaction): set<Hash> {
    set a | a in Ids(net, pool) && IsAncestor(net, pool, tx, a)
  }

  // The pool transactions that spend a transaction, directly or through others.
  ghost function Descendants(net: Network, pool: seq<Transaction>, id: Hash): set<Hash> {
    set d | d in Ids(net, pool) && Reaches(Spending(net, pool), d, id)
  }

  lemma SpendingFromPool(net: Network, pool: seq<Transaction>)
    ensures forall e <- Spending(net, pool) :: e.0 in Ids(net, pool)
  {
  }

  lemma SpendingOf(net: Network, pool: seq<Transaction>, tx: Transaction, h: Hash)
    requires Consistent(net, pool) && tx in pool
    ensures (net.txid(tx), h) in Spending(net, pool) <==> h in Inputs(tx)
  {
    if (net.txid(tx), h) in Spending(net, pool) {
      var other, i :| other in pool && i in other.inputs && (net.txid(tx), h) == (net.txid(other), i.prevout.txid);
      assert h in Inputs(other);
    }
    if h in Inputs(tx) {
      var i :| i in tx.inputs && i.prevout.txid == h;
    }
  }

  // Of two pool transactions, one is an ancestor of the other exactly when the other is a
  // descendant of it.
  lemma AncestorsAndDescendantsAreConverse(net: Network, pool: seq<Transaction>, tx: Transaction, a: Hash)
    requires Consistent(net, pool) && tx in pool && a in Ids(net, pool)
    ensures a in Ancestors(net, pool, tx) <==> net.txid(tx) in Descendants(net, pool, a)
  {
    var edges, t := Spending(net, pool), net.txid(tx);
    if a in Ancestors(net, pool, tx) {
      var h :| h in Inputs(tx) && (h == a || Reaches(edges, h, a));
      SpendingOf(net, pool, tx, h);
      ReachesEdge(edges, t, h);
      if h != a {
        ReachesTransitively(edges, t, h, a);
      }
    }
    if Reaches(edges, t, a) {
      ReachesByFirstEdge(edges, t, a);
      var h :| (t, h) in edges && (h == a || Reaches(edges, h, a));
      SpendingOf(net, pool, tx, h);
    }
  }

  // ---- ancestors ----

  // Later transactions of the pool replace earlier ones of the same txid.
  function ById(net: Network, pool: seq<Transaction>): (m: map<Hash, Transaction>)
    ensures m.Keys == Ids(net, pool)
    ensures forall h <- m :: m[h] in pool && net.txid(m[h]) == h
  {
    if pool == [] then map[]
    else
      assert pool == pool[..|pool| - 1] + [pool[|pool| - 1]];
      ById(net, pool[..|pool| - 1])[net.txid(pool[|pool| - 1]) := pool[|pool| - 1]]
  }

  // A set of ancestors of tx that holds every pool transaction spent by tx or by a member.
  lemma ClosedSetIsAncestors(net: Network, pool: seq<Transaction>, tx: Transaction, seen: set<Hash>)
    requires Consistent(net, pool)
    requires forall a <- seen :: IsAncestor(net, pool, tx, a)
    requires forall h <- Inputs(tx) :: h in Ids(net, pool) ==> h in seen
    requires ClosedForward(Spending(net, pool), Ids(net, pool), seen)
    ensures seen == Ancestors(net, pool, tx)
  {
    var edges, ids := Spending(net, pool), Ids(net, pool);
    forall a | a in Ancestors(net, pool, tx) ensures a in seen {
      var h :| h in Inputs(tx) && (h == a || Reaches(edges, h, a));
      if h != a {
        ReachesByFirstEdge(edges, h, a);
        SpendingFromPool(net, pool);
        ForwardClosedHoldsReachable(edges, ids, seen, h, a);
      }
    }
  }

  lemma AncestorStep(net: Network, pool: seq<Transaction>, tx: Transaction, a: Hash, h: Hash)
    requires IsAncestor(net, pool, tx, a) && (a, h) in Spending(net, pool) && h in Ids(net, pool)
    ensures IsAncestor(net, pool, tx, h)
  {
    var edges := Spending(net, pool);
    var first :| first in Inputs(tx) && (first == a || Reaches(edges, first, a));
    ReachesEdge(edges, a, h);
    if first != a {
      ReachesTransitively(edges, first, a, h);
    }
  }

  // Everything spent by the members of `done` is in `seen`.
  ghost predicate Explored(net: Network, pool: seq<Transaction>, done: set<Hash>, seen: set<Hash>) {
    forall e <- Spending(net, pool) :: e.0 in done && e.1 in Ids(net, pool) ==> e.1 in seen
  }

  // The recursive count: visits what an id spends, depth first.
  method Visit(net: Network, ghost pool: seq<Transaction>, ghost tx: Transaction, byTxid: map<Hash, Transaction>,
               id: Hash, before: set<Hash>)
      returns (seen: set<Hash>)
    requires byTxid == ById(net, pool) && Consistent(net, pool) && before <= byTxid.Keys
    requires forall a <- before :: IsAncestor(net, pool, tx, a)
    requires id in byTxid ==> IsAncestor(net, pool, tx, id)
    ensures before <= seen <= byTxid.Keys && (id in byTxid ==> id in seen)
    ensures forall a <- seen :: IsAncestor(net, pool, tx, a)
    ensures Explored(net, pool, seen - before, seen)
    decreases byTxid.Keys - before
  {
    hide IsAncestor, ById;
    seen := before;
    if id in seen || id !in byTxid {
      return;
    }
    seen := seen + {id};
    ghost var entered := seen;
    var inputs := byTxid[id].inputs;
    for k := 0 to |inputs|
      invariant entered <= seen <= byTxid.Keys
      invariant forall a <- seen :: IsAncestor(net, pool, tx, a)
      invariant Explored(net, pool, seen - entered, seen)
      invariant forall j :: 0 <= j < k && inputs[j].prevout.txid in byTxid ==> inputs[j].prevout.txid in seen
    {
      var h := inputs[k].prevout.txid;
      SpendingOf(net, pool, byTxid[id], h);
      if h in byTxid {
        AncestorStep(net, pool, tx, id, h);
      }
      ghost var earlier := seen;
      seen := Visit(net, pool, tx, byTxid, h, seen);
      assert seen - entered == (seen - earlier) + (earlier - entered);
    }
    forall e <- Spending(net, pool) | e.0 in seen - before && e.1 in Ids(net, pool) ensures e.1 in seen {
      if e.0 == id {
        SpendingOf(net, pool, byTxid[id], e.1);
      }
    }
  }

  method AncestorCount(net: Network, tx: Transaction, pool: seq<Transaction>) returns (count: nat)
    requires Consistent(net, pool)
    ensures count == |Ancestors(net, pool, tx)|
  {
    var byTxid := ById(net, pool);
    var seen: set<Hash> := {};
    for k := 0 to |tx.inputs|
      invariant seen <= byTxid.Keys
      invariant forall a <- seen :: IsAncestor(net, pool, tx, a)
      invariant Explored(net, pool, seen, seen)
      invariant forall j :: 0 <= j < k && tx.inputs[j].prevout.txid in byTxid ==> tx.inputs[j].prevout.txid in seen
    {
      var h := tx.inputs[k].prevout.txid;
      assert h in Inputs(tx);
      ghost var earlier := seen;
      seen := Visit(net, pool, tx, byTxid, h, seen);
      assert seen == earlier + (seen - earlier);
    }
    ClosedSetIsAncestors(net, pool, tx, seen);
    return |seen|;
  }

  // The ids of the transactions on a stack.
  function StackIds(net: Network, stack: seq<Transaction>): set<Hash> {
    set t | t in stack :: net.txid(t)
  }

  // The stack-based count.
  method StackAncestorCount(net: Network, tx: Transaction, pool: seq<Transaction>) returns (count: nat)
    requires Consistent(net, pool)
    ensures count == |Ancestors(net, pool, tx)|
  {
    hide *;
    var byId := ById(net, pool);
    var seen: set<Hash> := {};
    var stack := [tx];
    ghost var started := false;
    while stack != []
      invariant seen <= byId.Keys
      invariant forall a <- seen :: IsAncestor(net, pool, tx, a)
      invariant !started ==> stack == [tx] && seen == {}
      invariant started ==> OnStack(net, pool, stack, seen)
      invariant started ==> Explored(net, pool, seen - StackIds(net, stack), seen)
      invariant started ==> Marked(net, pool, tx, seen)
      decreases byId.Keys - seen, |stack|
    {
      var current := stack[|stack| - 1];
      ghost var before, earlier := stack, seen;
      stack := stack[..|stack| - 1];
      if started {
        OnStackTop(net, pool, before, earlier);
      } else {
        NothingOnStack(net, pool, earlier);
      }
      stack, seen := Push(net, pool, tx, byId, current, stack, seen);
      if started {
        StillExplored(net, pool, before, current, earlier, stack, seen);
        StillMarked(net, pool, tx, earlier, seen);
      } else {
        assert seen - StackIds(net, stack) == {};
        ExploredNothing(net, pool, seen);
        started := true;
      }
    }
    StackIdsOfNone(net);
    assert seen - {} == seen;
    AllIsExplored(net, pool, tx, seen);
    return |seen|;
  }

  // Every stacked transaction is a marked pool transaction.
  ghost predicate OnStack(net: Network, pool: seq<Transaction>, stack: seq<Transaction>, seen: set<Hash>) {
    forall t <- stack :: t in pool && net.txid(t) in seen
  }

  // Every pool transaction that tx spends is marked.
  ghost predicate Marked(net: Network, pool: seq<Transaction>, tx: Transaction, seen: set<Hash>) {
    forall h <- Inputs(tx) :: h in Ids(net, pool) ==> h in seen
  }

  lemma OnStackTop(net: Network, pool: seq<Transaction>, stack: seq<Transaction>, seen: set<Hash>)
    requires stack != [] && OnStack(net, pool, stack, seen)
    ensures OnStack(net, pool, stack[..|stack| - 1], seen)
    ensures stack[|stack| - 1] in pool && net.txid(stack[|stack| - 1]) in seen
  {
  }

  lemma NothingOnStack(net: Network, pool: seq<Transaction>, seen: set<Hash>)
    ensures OnStack(net, pool, [], seen)
  {
  }

  lemma StackIdsOfNone(net: Network)
    ensures StackIds(net, []) == {}
  {
  }

  lemma StillMarked(net: Network, pool: seq<Transaction>, tx: Transaction, earlier: set<Hash>, seen: set<Hash>)
    requires Marked(net, pool, tx, earlier) && earlier <= seen
    ensures Marked(net, pool, tx, seen)
  {
  }

  lemma ExploredNothing(net: Network, pool: seq<Transaction>, seen: set<Hash>)
    ensures Explored(net, pool, {}, seen)
  {
  }

  lemma AllIsExplored(net: Network, pool: seq<Transaction>, tx: Transaction, seen: set<Hash>)
    requires Consistent(net, pool)
    requires forall a <- seen :: IsAncestor(net, pool, tx, a)
    requires Marked(net, pool, tx, seen) && Explored(net, pool, seen, seen)
    ensures seen == Ancestors(net, pool, tx)
  {
    ClosedSetIsAncestors(net, pool, tx, seen);
  }

  // Taking one transaction off the stack and pushing what it spends keeps all others explored.
  lemma StillExplored(net: Network, pool: seq<Transaction>, before: seq<Transaction>, current: Transaction,
      earlier: set<Hash>, stack: seq<Transaction>, seen: set<Hash>)
    requires Consistent(net, pool) && before != [] && current == before[|before| - 1] && current in pool
    requires Explored(net, pool, earlier - StackIds(net, before), earlier) && earlier <= seen
    requires before[..|before| - 1] <= stack && seen - earlier <= StackIds(net, stack)
    requires Marked(net, pool, current, seen)
    ensures Explored(net, pool, seen - StackIds(net, stack), seen)
  {
    StackIdsOfPrefix(net, before, stack);
    forall e <- Spending(net, pool) | e.0 in seen - StackIds(net, stack) && e.1 in Ids(net, pool) ensures e.1 in seen {
      if e.0 == net.txid(current) {
        SpendingOf(net, pool, current, e.1);
      } else {
        assert e.0 !in StackIds(net, before);
      }
    }
  }

  lemma StackIdsOfPrefix(net: Network, before: seq<Transaction>, stack: seq<Transaction>)
    requires before != [] && before[..|before| - 1] <= stack
    ensures StackIds(net, before) <= StackIds(net, stack) + {net.txid(before[|before| - 1])}
  {
    forall h | h in StackIds(net, before) ensures h in StackIds(net, stack) + {net.txid(before[|before| - 1])} {
      var k :| 0 <= k < |before| && net.txid(before[k]) == h;
      if k < |before| - 1 {
        assert stack[k] == before[..|before| - 1][k] && stack[k] in stack;
      }
    }
  }

  // Marking and pushing the unseen pool transactions that one transaction spends.
  method Push(net: Network, ghost pool: seq<Transaction>, ghost tx: Transaction, byId: map<Hash, Transaction>,
              current: Transaction,
      below: seq<Transaction>, before: set<Hash>) returns (stack: seq<Transaction>, seen: set<Hash>)
    requires byId == ById(net, pool) && before <= byId.Keys && Consistent(net, pool)
    requires current == tx || (current in pool && IsAncestor(net, pool, tx, net.txid(current)))
    requires forall a <- before :: IsAncestor(net, pool, tx, a)
    requires OnStack(net, pool, below, before)
    ensures before <= seen <= byId.Keys && below <= stack
    ensures forall a <- seen :: IsAncestor(net, pool, tx, a)
    ensures OnStack(net, pool, stack, seen)
    ensures seen - before <= StackIds(net, stack)
    ensures Marked(net, pool, current, seen)
    ensures seen == before ==> stack == below
  {
    hide ById;
    stack, seen := below, before;
    for k := 0 to |current.inputs|
      invariant before <= seen <= byId.Keys && below <= stack
      invariant forall a <- seen :: IsAncestor(net, pool, tx, a)
      invariant forall t <- stack :: t in pool && net.txid(t) in seen
      invariant seen - before <= StackIds(net, stack)
      invariant forall j :: 0 <= j < k && current.inputs[j].prevout.txid in byId ==>
                  current.inputs[j].prevout.txid in seen
      invariant seen == before ==> stack == below
    {
      var h := current.inputs[k].prevout.txid;
      assert h in Inputs(current);
      if h in byId {
        var parent := byId[h];
        if net.txid(parent) !in seen {
          SpentIsAncestor(net, pool, tx, current, h);
          ghost var ids := StackIds(net, stack);
          seen := seen + {net.txid(parent)};
          stack := stack + [parent];
          assert StackIds(net, stack) == ids + {h};
        }
      }
    }
  }

  lemma SpentIsAncestor(net: Network, pool: seq<Transaction>, tx: Transaction, current: Transaction, h: Hash)
    requires Consistent(net, pool) && h in Inputs(current) && h in Ids(net, pool)
    requires current == tx || (current in pool && IsAncestor(net, pool, tx, net.txid(current)))
    ensures IsAncestor(net, pool, tx, h)
  {
    if current != tx {
      SpendingOf(net, pool, current, h);
      AncestorStep(net, pool, tx, net.txid(current), h);
    }
  }

  // ---- descendants ----

  // The fixpoint count.
  method DescendantCount(net: Network, parent: Transaction, pool: seq<Transaction>) returns (count: nat)
    ensures count == |Descendants(net, pool, net.txid(parent))|
  {
    var id := net.txid(parent);
    var descendants: set<Hash> := {};
    var changed := true;
    while changed
      invariant descendants <= Descendants(net, pool, id)
      invariant !changed ==> ClosedBackward(Spending(net, pool), descendants, id)
      decreases Ids(net, pool) - descendants, changed
    {
      descendants, changed := Pass(net, pool, id, descendants);
    }
    forall d | d in Descendants(net, pool, id) ensures d in descendants {
      BackwardClosedHoldsReaching(Spending(net, pool), descendants, d, id);
    }
    assert descendants == Descendants(net, pool, id);
    return |descendants|;
  }

  predicate SpendsOneOf(tx: Transaction, known: set<Hash>) {
    exists i :: i in tx.inputs && i.prevout.txid in known
  }

  // One pass over the pool against what was known before it.
  method Pass(net: Network, pool: seq<Transaction>, id: Hash, before: set<Hash>)
    returns (descendants: set<Hash>, changed: bool)
    requires before <= Descendants(net, pool, id)
    ensures before <= descendants <= Descendants(net, pool, id)
    ensures changed <==> descendants != before
    ensures !changed ==> ClosedBackward(Spending(net, pool), descendants, id)
  {
    hide Descendants;
    descendants, changed := before, false;
    var known := before + {id};
    for k := 0 to |pool|
      invariant before <= descendants <= Descendants(net, pool, id)
      invariant changed <==> descendants != before
      invariant forall j :: 0 <= j < k && SpendsOneOf(pool[j], known) ==> net.txid(pool[j]) in descendants
    {
      var txid := net.txid(pool[k]);
      if txid in descendants {
        continue;
      }
      if SpendsOneOf(pool[k], known) {
        DescendantStep(net, pool, id, before, k);
        descendants := descendants + {txid};
        changed := true;
      }
    }
    if !changed {
      forall e <- Spending(net, pool) | e.1 in descendants || e.1 == id ensures e.0 in descendants {
        var tx, i :| tx in pool && i in tx.inputs && e == (net.txid(tx), i.prevout.txid);
        var j :| 0 <= j < |pool| && pool[j] == tx;
        assert SpendsOneOf(pool[j], known);
      }
    }
  }

  lemma DescendantStep(net: Network, pool: seq<Transaction>, id: Hash, before: set<Hash>, k: nat)
    requires k < |pool| && before <= Descendants(net, pool, id) && SpendsOneOf(pool[k], before + {id})
    ensures net.txid(pool[k]) in Descendants(net, pool, id)
  {
    var edges, tx := Spending(net, pool), pool[k];
    var i :| i in tx.inputs && i.prevout.txid in before + {id};
    assert (net.txid(tx), i.prevout.txid) in edges;
    ReachesEdge(edges, net.txid(tx), i.prevout.txid);
    if i.prevout.txid != id {
      ReachesTransitively(edges, net.txid(tx), i.prevout.txid, id);
    }
  }
}
