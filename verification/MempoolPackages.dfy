// Connected packages of the mempool (netcoin/chain.py, mempool_packages).
module MempoolPackages {
  import opened Ledger
  import opened Reachability
  import opened MempoolGraph
  import opened Sorting

  datatype Entry = Entry(fee: int, vsize: int)

  datatype Package = Package(txids: seq<Hash>, count: nat, fee: int, vsize: int, feeRatePerKvb: int)

  type Entries = map<Hash, Entry>

  // ---- links ----

  // Both directions of the first `count` spends of a transaction that stay within the pool.
  function TxLinks(net: Network, ids: set<Hash>, tx: Transaction, count: nat): Edges
    requires count <= |tx.inputs|
  {
    if count == 0 then {}
    else
      var t, h := net.txid(tx), tx.inputs[count - 1].prevout.txid;
      TxLinks(net, ids, tx, count - 1) + if h in ids then {(t, h), (h, t)} else {}
  }

  function Links(net: Network, ids: set<Hash>, txs: seq<Transaction>, count: nat): Edges
    requires count <= |txs|
  {
    if count == 0 then {}
    else Links(net, ids, txs, count - 1) + TxLinks(net, ids, txs[count - 1], |txs[count - 1].inputs|)
  }

  function PoolLinks(net: Network, pool: seq<Transaction>): Edges {
    Links(net, Ids(net, pool), pool, |pool|)
  }

  lemma {:induction false} TxLinksAreSpends(net: Network, ids: set<Hash>, tx: Transaction, count: nat, e: (Hash, Hash))
    requires count <= |tx.inputs|
    ensures e in TxLinks(net, ids, tx, count) <==>
              exists k :: 0 <= k < count && tx.inputs[k].prevout.txid in ids
                && (e == (net.txid(tx), tx.inputs[k].prevout.txid) || e == (tx.inputs[k].prevout.txid, net.txid(tx)))
  {
    if count > 0 {
      TxLinksAreSpends(net, ids, tx, count - 1, e);
    }
  }

  lemma {:induction false} LinksOfTxs(net: Network, ids: set<Hash>, txs: seq<Transaction>, count: nat, e: (Hash, Hash))
    requires count <= |txs|
    ensures e in Links(net, ids, txs, count) <==>
              exists j :: 0 <= j < count && e in TxLinks(net, ids, txs[j], |txs[j].inputs|)
  {
    hide TxLinks;
    if count > 0 {
      LinksOfTxs(net, ids, txs, count - 1, e);
    }
  }

  // Two pool transactions are linked exactly when one spends the other.
  lemma LinkedWhenSpending(net: Network, pool: seq<Transaction>, a: Hash, b: Hash)
    ensures (a, b) in PoolLinks(net, pool) <==>
              && a in Ids(net, pool) && b in Ids(net, pool)
              && ((a, b) in Spending(net, pool) || (b, a) in Spending(net, pool))
  {
    var ids := Ids(net, pool);
    LinksOfTxs(net, ids, pool, |pool|, (a, b));
    hide Links, TxLinks;
    if (a, b) in PoolLinks(net, pool) {
      var j :| 0 <= j < |pool| && (a, b) in TxLinks(net, ids, pool[j], |pool[j].inputs|);
      TxLinksAreSpends(net, ids, pool[j], |pool[j].inputs|, (a, b));
      var k :| 0 <= k < |pool[j].inputs| && pool[j].inputs[k].prevout.txid in ids
        && ((a, b) == (net.txid(pool[j]), pool[j].inputs[k].prevout.txid) ||
            (a, b) == (pool[j].inputs[k].prevout.txid, net.txid(pool[j])));
      assert pool[j] in pool && pool[j].inputs[k] in pool[j].inputs;
    }
    if a in ids && b in ids {
      SpendIsLink(net, pool, a, b, (a, b));
      SpendIsLink(net, pool, b, a, (a, b));
    }
  }

  lemma SpendIsLink(net: Network, pool: seq<Transaction>, a: Hash, b: Hash, e: (Hash, Hash))
    requires a in Ids(net, pool) && b in Ids(net, pool) && (e == (a, b) || e == (b, a))
    ensures (a, b) in Spending(net, pool) ==> e in PoolLinks(net, pool)
  {
    if (a, b) in Spending(net, pool) {
      var tx, i :| tx in pool && i in tx.inputs && (a, b) == (net.txid(tx), i.prevout.txid);
      var j :| 0 <= j < |pool| && pool[j] == tx;
      var k :| 0 <= k < |tx.inputs| && tx.inputs[k] == i;
      TxLinksAreSpends(net, Ids(net, pool), tx, |tx.inputs|, e);
      LinksOfTxs(net, Ids(net, pool), pool, |pool|, e);
    }
  }

  lemma LinksAreSymmetric(net: Network, pool: seq<Transaction>)
    ensures Symmetric(PoolLinks(net, pool))
    ensures forall e <- PoolLinks(net, pool) :: e.0 in Ids(net, pool) && e.1 in Ids(net, pool)
  {
    forall e | e in PoolLinks(net, pool)
      ensures (e.1, e.0) in PoolLinks(net, pool) && e.0 in Ids(net, pool) && e.1 in Ids(net, pool)
    {
      hide PoolLinks;
      LinkedWhenSpending(net, pool, e.0, e.1);
      LinkedWhenSpending(net, pool, e.1, e.0);
    }
  }

  // ---- components ----

  // Everything joined to a transaction by spends in either direction.
  ghost function ComponentOf(net: Network, pool: seq<Transaction>, x: Hash): set<Hash> {
    set y | y in Ids(net, pool) && (y == x || Reaches(PoolLinks(net, pool), x, y))
  }

  lemma JoinedTransitively(net: Network, pool: seq<Transaction>, x: Hash, y: Hash, z: Hash)
    requires y in ComponentOf(net, pool, x) && z in ComponentOf(net, pool, y)
    ensures z in ComponentOf(net, pool, x)
  {
    hide PoolLinks, Ids;
    if y != x && z != y {
      ReachesTransitively(PoolLinks(net, pool), x, y, z);
    }
  }

  lemma JoinedBack(net: Network, pool: seq<Transaction>, x: Hash, y: Hash)
    requires x in Ids(net, pool) && y in ComponentOf(net, pool, x)
    ensures x in ComponentOf(net, pool, y)
  {
    LinksAreSymmetric(net, pool);
    hide PoolLinks, Ids;
    if y != x {
      ReachesBack(PoolLinks(net, pool), x, y);
    }
  }

  // Components are classes: the component of any member is the component itself, and two
  // components are equal or have no transaction in common.
  lemma ComponentsAreClasses(net: Network, pool: seq<Transaction>, x: Hash, y: Hash)
    requires x in Ids(net, pool) && y in Ids(net, pool)
    ensures x in ComponentOf(net, pool, x)
    ensures if y in ComponentOf(net, pool, x) then ComponentOf(net, pool, y) == ComponentOf(net, pool, x)
            else ComponentOf(net, pool, y) !! ComponentOf(net, pool, x)
  {
    var cx, cy := ComponentOf(net, pool, x), ComponentOf(net, pool, y);
    assert cx <= Ids(net, pool) && cy <= Ids(net, pool) && x in cx && y in cy;
    hide ComponentOf, Ids;
    if y in cx {
      JoinedBack(net, pool, x, y);
      forall z | z in cx ensures z in cy { JoinedTransitively(net, pool, y, x, z); }
      forall z | z in cy ensures z in cx { JoinedTransitively(net, pool, x, y, z); }
    } else {
      forall z | z in cx ensures z !in cy {
        if z in cy {
          JoinedBack(net, pool, y, z);
          JoinedTransitively(net, pool, x, z, y);
        }
      }
    }
  }

  // ---- sums ----

  function FeeOf(entries: Entries, h: Hash): int {
    if h in entries then entries[h].fee else 0
  }

  function VsizeOf(entries: Entries, h: Hash): int {
    if h in entries then entries[h].vsize else 0
  }

  function Fees(entries: Entries): Hash -> int {
    (h: Hash) => FeeOf(entries, h)
  }

  function Vsizes(entries: Entries): Hash -> int {
    (h: Hash) => VsizeOf(entries, h)
  }

  ghost function SumOver(f: Hash -> int, s: set<Hash>): int {
    if s == {} then 0 else var x :| x in s; f(x) + SumOver(f, s - {x})
  }

  lemma {:induction false} SumWithout(f: Hash -> int, s: set<Hash>, x: Hash)
    requires x in s
    ensures SumOver(f, s) == f(x) + SumOver(f, s - {x})
  {
    var y :| y in s && SumOver(f, s) == f(y) + SumOver(f, s - {y});
    if y != x {
      SumWithout(f, s - {y}, x);
      SumWithout(f, s - {x}, y);
      assert s - {y} - {x} == s - {x} - {y};
    }
  }

  lemma SumWith(f: Hash -> int, s: set<Hash>, x: Hash)
    requires x !in s
    ensures SumOver(f, s + {x}) == SumOver(f, s) + f(x)
  {
    SumWithout(f, s + {x}, x);
    assert s + {x} - {x} == s;
  }

  // Each transaction adds the fee and the size of its entry, or nothing without one.
  lemma EntryIsAdded(entries: Entries, s: set<Hash>, h: Hash)
    requires h !in s
    ensures SumOver(Fees(entries), s + {h}) - SumOver(Fees(entries), s) == if h in entries then entries[h].fee else 0
    ensures SumOver(Vsizes(entries), s + {h}) - SumOver(Vsizes(entries), s) ==
            if h in entries then entries[h].vsize else 0
  {
    SumWith(Fees(entries), s, h);
    SumWith(Vsizes(entries), s, h);
  }

  lemma {:induction false} SumOfUnion(f: Hash -> int, a: set<Hash>, b: set<Hash>)
    requires a !! b
    ensures SumOver(f, a + b) == SumOver(f, a) + SumOver(f, b)
  {
    if b == {} {
      assert a + b == a;
    } else {
      var x :| x in b;
      SumOfUnion(f, a, b - {x});
      SumWithout(f, b, x);
      SumWithout(f, a + b, x);
      assert a + b - {x} == a + (b - {x});
    }
  }

  function Members(s: seq<Hash>): set<Hash> {
    set h | h in s
  }

  method SumEntries(f: Hash -> int, s: seq<Hash>) returns (total: int)
    requires Distinct(s)
    ensures total == SumOver(f, Members(s))
  {
    total := 0;
    assert Members(s[..0]) == {};
    for k := 0 to |s|
      invariant total == SumOver(f, Members(s[..k]))
    {
      assert s[..k + 1] == s[..k] + [s[k]];
      assert Members(s[..k + 1]) == Members(s[..k]) + {s[k]};
      SumWith(f, Members(s[..k]), s[k]);
      total := total + f(s[k]);
    }
    assert s[..|s|] == s;
  }

  // ---- ordering ----

  ghost predicate Ascending(s: seq<Hash>) {
    forall i, j :: 0 <= i < j < |s| ==> s[i] < s[j]
  }

  method SortIds(s: seq<Hash>) returns (sorted: seq<Hash>)
    requires Distinct(s)
    ensures Ascending(sorted) && Members(sorted) == Members(s) && |sorted| == |s|
  {
    var ordered := SortedOf(s);
    SortedOfSorts(s);
    SameElements(s, ordered);
    sorted := seq(|ordered|, i requires 0 <= i < |ordered| => ordered[i] as Hash);
    assert sorted == ordered;
  }

  lemma SameElements(s: seq<Hash>, ordered: seq<int>)
    requires multiset(ordered) == multiset(s) && Distinct(s) && Sorted(ordered) && |ordered| == |s|
    ensures forall i :: 0 <= i < |ordered| ==> ordered[i] >= 0
    ensures forall i, j :: 0 <= i < j < |ordered| ==> ordered[i] < ordered[j]
    ensures forall h: Hash :: h in s <==> h in ordered
  {
    forall i | 0 <= i < |ordered| ensures ordered[i] >= 0 {
      assert ordered[i] in multiset(ordered);
      assert ordered[i] in multiset(s);
    }
    forall h: Hash ensures h in s <==> h in ordered {
      assert h in s <==> h in multiset(s);
      assert h in ordered <==> h in multiset(ordered);
    }
    forall i, j | 0 <= i < j < |ordered| ensures ordered[i] < ordered[j] {
      if ordered[i] == ordered[j] {
        RepeatCounts(ordered, i, j);
        DistinctCounts(s, ordered[i]);
      }
    }
  }

  lemma RepeatCounts(s: seq<int>, i: nat, j: nat)
    requires i < j < |s| && s[i] == s[j]
    ensures multiset(s)[s[i]] >= 2
  {
    assert s == s[..j] + [s[j]] + s[j + 1..];
    assert s[..j][i] in s[..j];
  }

  lemma {:induction false} DistinctCounts(s: seq<Hash>, x: int)
    requires Distinct(s)
    ensures multiset(s)[x] <= 1
  {
    if s != [] {
      var rest := s[..|s| - 1];
      assert s == rest + [s[|s| - 1]];
      DistinctCounts(rest, x);
      if x == s[|s| - 1] {
        assert x !in rest;
      }
    }
  }

  // A set's elements in some order.
  method ListOf(ids: set<Hash>) returns (s: seq<Hash>)
    ensures Distinct(s) && Members(s) == ids
  {
    s := [];
    var rest := ids;
    while rest != {}
      invariant Distinct(s) && Members(s) + rest == ids && Members(s) !! rest
      decreases rest
    {
      var h :| h in rest;
      rest := rest - {h};
      assert h !in Members(s);
      assert Members(s + [h]) == Members(s) + {h};
      s := s + [h];
    }
  }

  // ---- the walk ----

  type Adjacency = map<Hash, set<Hash>>

  // Each pool transaction's neighbours are those it is linked with.
  ghost predicate Matches(ids: set<Hash>, edges: Adjacency, links: Edges) {
    && edges.Keys == ids
    && forall a, b :: a in edges ==> (b in edges[a] <==> (a, b) in links)
  }

  method BuildEdges(net: Network, pool: seq<Transaction>) returns (edges: Adjacency)
    ensures Matches(Ids(net, pool), edges, PoolLinks(net, pool))
  {
    var ids := Ids(net, pool);
    edges := map h | h in ids :: {};
    for j := 0 to |pool|
      invariant Matches(ids, edges, Links(net, ids, pool, j))
    {
      var tx := pool[j];
      ghost var links := Links(net, ids, pool, j);
      edges := LinkInputs(net, ids, tx, edges, links);
      LinksStep(net, ids, pool, j);
    }
  }

  // Linking one transaction, in both directions, with those of the pool that it spends.
  method LinkInputs(net: Network, ids: set<Hash>, tx: Transaction, before: Adjacency, ghost links: Edges)
    returns (edges: Adjacency)
    requires Matches(ids, before, links) && net.txid(tx) in ids
    ensures Matches(ids, edges, links + TxLinks(net, ids, tx, |tx.inputs|))
  {
    hide Matches;
    var t := net.txid(tx);
    edges := before;
    assert links + TxLinks(net, ids, tx, 0) == links;
    for k := 0 to |tx.inputs|
      invariant Matches(ids, edges, links + TxLinks(net, ids, tx, k))
    {
      var h := tx.inputs[k].prevout.txid;
      ghost var sofar := links + TxLinks(net, ids, tx, k);
      MatchesKeys(ids, edges, sofar);
      if h in ids {
        LinkMatches(ids, edges, sofar, t, h);
        edges := Link(edges, t, h);
        assert sofar + {(t, h), (h, t)} == links + TxLinks(net, ids, tx, k + 1);
      } else {
        assert TxLinks(net, ids, tx, k + 1) == TxLinks(net, ids, tx, k);
      }
    }
  }

  lemma LinksStep(net: Network, ids: set<Hash>, pool: seq<Transaction>, j: nat)
    requires j < |pool|
    ensures Links(net, ids, pool, j + 1) == Links(net, ids, pool, j) + TxLinks(net, ids, pool[j], |pool[j].inputs|)
  {
  }

  lemma MatchesKeys(ids: set<Hash>, edges: Adjacency, links: Edges)
    requires Matches(ids, edges, links)
    ensures edges.Keys == ids
  {
  }

  lemma LinkMatches(ids: set<Hash>, edges: Adjacency, links: Edges, a: Hash, b: Hash)
    requires Matches(ids, edges, links) && a in ids && b in ids
    ensures Matches(ids, Link(edges, a, b), links + {(a, b), (b, a)})
  {
    hide Link;
  }

  function Link(edges: Adjacency, a: Hash, b: Hash): (linked: Adjacency)
    requires a in edges && b in edges
    ensures linked.Keys == edges.Keys
    ensures forall x, y :: x in edges ==>
              (y in linked[x] <==> y in edges[x] || (x == a && y == b) || (x == b && y == a))
  {
    var once := edges[a := edges[a] + {b}];
    once[b := once[b] + {a}]
  }

  // Pushing a transaction's unseen neighbours, in any order.
  method Spread(neighbours: set<Hash>, below: seq<Hash>, before: set<Hash>) returns (stack: seq<Hash>, seen: set<Hash>)
    requires Distinct(below) && Members(below) <= before
    ensures seen == before + neighbours
    ensures Distinct(stack) && Members(stack) == Members(below) + (neighbours - before)
    ensures seen == before ==> stack == below
  {
    stack, seen := below, before;
    var rest := neighbours;
    while rest != {}
      invariant rest <= neighbours && seen == before + (neighbours - rest)
      invariant Distinct(stack) && Members(stack) == Members(below) + (neighbours - rest - before)
      invariant seen == before ==> stack == below
      decreases rest
    {
      var next :| next in rest;
      rest := rest - {next};
      if next !in seen {
        assert next !in Members(stack);
        assert Members(stack + [next]) == Members(stack) + {next};
        seen := seen + {next};
        stack := stack + [next];
      }
    }
  }

  // Collecting everything joined to an unseen root, when what was seen before is closed.
  method Collect(net: Network, ghost pool: seq<Transaction>, edges: Adjacency, root: Hash, before: set<Hash>)
      returns (component: seq<Hash>, seen: set<Hash>)
    requires Matches(Ids(net, pool), edges, PoolLinks(net, pool)) && before <= edges.Keys && root in edges &&
             root !in before
    requires ClosedForward(PoolLinks(net, pool), Ids(net, pool), before)
    ensures Distinct(component) && Members(component) == ComponentOf(net, pool, root)
    ensures seen == before + Members(component) && seen <= edges.Keys
    ensures ClosedForward(PoolLinks(net, pool), Ids(net, pool), seen)
    ensures Members(component) !! before
  {
    ghost var links := PoolLinks(net, pool);
    LinksAreSymmetric(net, pool);
    hide Ids, PoolLinks;
    var stack := [root];
    component, seen := [], before + {root};
    RootIsJoined(net, pool, root);
    while stack != []
      invariant before <= seen <= edges.Keys
      invariant Distinct(stack) && Distinct(component) && Members(stack) !! Members(component)
      invariant Members(component) + Members(stack) == seen - before
      invariant forall h <- seen - before :: h in ComponentOf(net, pool, root)
      invariant forall e <- links :: e.0 in Members(component) ==> e.1 in seen
      invariant root in seen
      decreases edges.Keys - seen, |stack|
    {
      var current := stack[|stack| - 1];
      ghost var was, earlier := stack, seen;
      stack := stack[..|stack| - 1];
      assert was == stack + [current];
      assert Members(was) == Members(stack) + {current};
      assert Members(component + [current]) == Members(component) + {current};
      component := component + [current];
      NeighboursAreJoined(net, pool, edges, root, current);
      stack, seen := Spread(edges[current], stack, seen);
    }
    CollectedAll(net, pool, root, before, Members(component), seen);
  }

  lemma RootIsJoined(net: Network, pool: seq<Transaction>, root: Hash)
    requires root in Ids(net, pool)
    ensures root in ComponentOf(net, pool, root)
  {
  }

  lemma NeighboursAreJoined(net: Network, pool: seq<Transaction>, edges: Adjacency, root: Hash, current: Hash)
    requires Matches(Ids(net, pool), edges, PoolLinks(net, pool)) && current in edges &&
             current in ComponentOf(net, pool, root)
    ensures edges[current] <= edges.Keys
    ensures forall h <- edges[current] :: h in ComponentOf(net, pool, root)
  {
    LinksAreSymmetric(net, pool);
    forall h | h in edges[current] ensures h in edges && h in ComponentOf(net, pool, root) {
      assert (current, h) in PoolLinks(net, pool);
      ReachesEdge(PoolLinks(net, pool), current, h);
      if current != root {
        ReachesTransitively(PoolLinks(net, pool), root, current, h);
      }
    }
  }

  lemma LinksStayOutside(links: Edges, ids: set<Hash>, closed: set<Hash>, e: (Hash, Hash))
    requires Symmetric(links) && ClosedForward(links, ids, closed) && e in links && e.0 in ids
    ensures e.1 in closed ==> e.0 in closed
  {
    var back := (e.1, e.0);
    assert back in links;
  }

  // A closed set that only adds joined transactions, the root among them, adds the component.
  lemma CollectedAll(net: Network, pool: seq<Transaction>, root: Hash, before: set<Hash>, added: set<Hash>,
                     seen: set<Hash>)
    requires root in added && added <= ComponentOf(net, pool, root) && added == seen - before && before <= seen
    requires ClosedForward(PoolLinks(net, pool), Ids(net, pool), before)
    requires forall e <- PoolLinks(net, pool) :: e.0 in added ==> e.1 in seen
    ensures added == ComponentOf(net, pool, root)
    ensures ClosedForward(PoolLinks(net, pool), Ids(net, pool), seen)
  {
    var links, ids := PoolLinks(net, pool), Ids(net, pool);
    LinksAreSymmetric(net, pool);
    assert ClosedForward(links, ids, added) by {
      forall e | e in links && e.0 in added && e.1 in ids ensures e.1 in added {
        LinksStayOutside(links, ids, before, e);
      }
    }
    forall h | h in ComponentOf(net, pool, root) ensures h in added {
      if h != root {
        ForwardClosedHoldsReachable(links, ids, added, root, h);
      }
    }
  }

  // ---- packages ----

  // A package lists one component in ascending order, with its summed fees and sizes.
  ghost predicate IsPackage(net: Network, pool: seq<Transaction>, entries: Entries, p: Package) {
    && |p.txids| > 0 && Ascending(p.txids) && p.txids[0] in Ids(net, pool)
    && Members(p.txids) == ComponentOf(net, pool, p.txids[0])
    && p.count == |ComponentOf(net, pool, p.txids[0])|
    && p.fee == SumOver(Fees(entries), ComponentOf(net, pool, p.txids[0]))
    && p.vsize == SumOver(Vsizes(entries), ComponentOf(net, pool, p.txids[0]))
    && p.feeRatePerKvb == p.fee * 1000 / if p.vsize > 1 then p.vsize else 1
  }

  // Everything packaged so far.
  function Packaged(packages: seq<Package>): set<Hash> {
    if packages == [] then {}
    else Packaged(packages[..|packages| - 1]) + Members(packages[|packages| - 1].txids)
  }

  function TotalFee(packages: seq<Package>): int {
    if packages == [] then 0 else TotalFee(packages[..|packages| - 1]) + packages[|packages| - 1].fee
  }

  function TotalVsize(packages: seq<Package>): int {
    if packages == [] then 0 else TotalVsize(packages[..|packages| - 1]) + packages[|packages| - 1].vsize
  }

  // The packages cover what was seen, which is closed, in ascending order of their first ids.
  ghost predicate Progress(net: Network, pool: seq<Transaction>, entries: Entries, packages: seq<Package>,
                           seen: set<Hash>) {
    && (forall p <- packages :: IsPackage(net, pool, entries, p))
    && Packaged(packages) == seen
    && TotalFee(packages) == SumOver(Fees(entries), seen)
    && TotalVsize(packages) == SumOver(Vsizes(entries), seen)
  }

  lemma ProgressStep(net: Network, pool: seq<Transaction>, entries: Entries, packages: seq<Package>, seen: set<Hash>,
                     p: Package)
    requires Progress(net, pool, entries, packages, seen) && IsPackage(net, pool, entries, p)
    requires Members(p.txids) !! seen
    ensures Progress(net, pool, entries, packages + [p], seen + Members(p.txids))
  {
    hide ComponentOf, SumOver, Members, Ascending;
    var more := packages + [p];
    assert more[..|more| - 1] == packages;
    SumOfUnion(Fees(entries), seen, Members(p.txids));
    SumOfUnion(Vsizes(entries), seen, Members(p.txids));
    assert p.fee == SumOver(Fees(entries), Members(p.txids)) && p.vsize == SumOver(Vsizes(entries), Members(p.txids));
    hide IsPackage, Fees, Vsizes;
  }

  method PackageOf(net: Network, ghost pool: seq<Transaction>, entries: Entries, component: seq<Hash>, ghost root: Hash)
    returns (p: Package)
    requires Distinct(component) && root in Ids(net, pool) && Members(component) == ComponentOf(net, pool, root)
    ensures IsPackage(net, pool, entries, p) && Members(p.txids) == Members(component)
  {
    var fee := SumEntries(Fees(entries), component);
    var vsize := SumEntries(Vsizes(entries), component);
    var txids := SortIds(component);
    RootIsJoined(net, pool, root);
    assert root in component;
    assert txids[0] in Members(component);
    ComponentsAreClasses(net, pool, root, txids[0]);
    DistinctSize(component);
    return Package(txids, |component|, fee, vsize, fee * 1000 / if vsize > 1 then vsize else 1);
  }

  lemma {:induction false} DistinctSize(s: seq<Hash>)
    requires Distinct(s)
    ensures |Members(s)| == |s|
  {
    if s != [] {
      var rest := s[..|s| - 1];
      DistinctSize(rest);
      assert s == rest + [s[|s| - 1]];
      assert Members(s) == Members(rest) + {s[|s| - 1]};
    }
  }

  // Packages in ascending order of their first ids, without common transactions.
  ghost predicate Separate(packages: seq<Package>) {
    forall i, j :: 0 <= i < j < |packages| ==>
      && packages[i].txids != [] && packages[j].txids != [] && packages[i].txids[0] < packages[j].txids[0]
      && Members(packages[i].txids) !! Members(packages[j].txids)
  }

  ghost predicate FirstsAmong(packages: seq<Package>, ids: seq<Hash>) {
    forall p <- packages :: p.txids != [] && p.txids[0] in ids
  }

  // The first id of a package is the id it was collected from: smaller ids were seen before.
  lemma FirstIsRoot(net: Network, pool: seq<Transaction>, entries: Entries, sorted: seq<Hash>, k: nat, seen: set<Hash>,
                    p: Package)
    requires k < |sorted| && Ascending(sorted) && Members(sorted) == Ids(net, pool) && Members(sorted[..k]) <= seen
    requires IsPackage(net, pool, entries, p) && sorted[k] in Members(p.txids) && Members(p.txids) !! seen
    ensures p.txids[0] == sorted[k]
  {
    var first := p.txids[0];
    assert first in Members(p.txids) && first in Members(sorted);
    var i :| 0 <= i < |sorted| && sorted[i] == first;
    EarlierAreMembers(sorted, k, i);
  }

  lemma EarlierAreMembers(s: seq<Hash>, k: nat, i: nat)
    requires k <= |s| && i < |s|
    ensures i < k ==> s[i] in Members(s[..k])
  {
    if i < k {
      assert s[..k][i] == s[i];
    }
  }

  lemma AddSeparate(packages: seq<Package>, p: Package, sorted: seq<Hash>, k: nat, seen: set<Hash>)
    requires k < |sorted| && Ascending(sorted) && Separate(packages) && FirstsAmong(packages, sorted[..k])
    requires p.txids != [] && p.txids[0] == sorted[k] && Packaged(packages) == seen && Members(p.txids) !! seen
    ensures Separate(packages + [p]) && FirstsAmong(packages + [p], sorted[..k + 1])
  {
    assert sorted[..k + 1] == sorted[..k] + [sorted[k]];
    forall i | 0 <= i < |packages|
      ensures Members(packages[i].txids) <= seen && packages[i].txids != [] && packages[i].txids[0] < sorted[k]
    {
      PackagedHolds(packages, i);
      assert packages[i] in packages;
    }
  }

  lemma {:induction false} PackagedHolds(packages: seq<Package>, i: nat)
    requires i < |packages|
    ensures Members(packages[i].txids) <= Packaged(packages)
  {
    if i < |packages| - 1 {
      PackagedHolds(packages[..|packages| - 1], i);
    }
  }

  lemma {:induction false} AllPackaged(packages: seq<Package>)
    ensures forall h <- Packaged(packages) :: exists p :: p in packages && h in p.txids
  {
    if packages != [] {
      var rest := packages[..|packages| - 1];
      AllPackaged(rest);
      forall h | h in Packaged(packages) ensures exists p :: p in packages && h in p.txids {
        if h in Packaged(rest) {
          var p :| p in rest && h in p.txids;
          assert p in packages;
        } else {
          assert packages[|packages| - 1] in packages;
        }
      }
    }
  }

  // The packages are exactly the connected components, each once, and fees and sizes are
  // conserved.
  method Packages(net: Network, pool: seq<Transaction>, entries: Entries) returns (packages: seq<Package>)
    ensures forall p <- packages :: IsPackage(net, pool, entries, p)
    ensures forall h <- Ids(net, pool) :: exists p :: p in packages && h in p.txids
    ensures Separate(packages)
    ensures TotalFee(packages) == SumOver(Fees(entries), Ids(net, pool))
    ensures TotalVsize(packages) == SumOver(Vsizes(entries), Ids(net, pool))
  {
    hide *;
    var ids := Ids(net, pool);
    var edges := BuildEdges(net, pool);
    MatchesKeys(ids, edges, PoolLinks(net, pool));
    var listed := ListOf(ids);
    var sorted := SortIds(listed);
    var seen: set<Hash> := {};
    packages := [];
    NothingPackaged(net, pool, entries, sorted);
    for k := 0 to |sorted|
      invariant seen <= ids && ClosedForward(PoolLinks(net, pool), ids, seen)
      invariant Progress(net, pool, entries, packages, seen)
      invariant Members(sorted[..k]) <= seen
      invariant Separate(packages) && FirstsAmong(packages, sorted[..k])
    {
      var root := sorted[k];
      MembersStep(sorted, k);
      if root in seen {
        FirstsStep(packages, sorted, k);
        continue;
      }
      var component, more := Collect(net, pool, edges, root, seen);
      RootIsJoined(net, pool, root);
      var p := PackageOf(net, pool, entries, component, root);
      PackagedNext(net, pool, entries, packages, sorted, k, seen, p);
      seen := more;
      packages := packages + [p];
    }
    assert sorted[..|sorted|] == sorted;
    assert seen == ids;
    ProgressGives(net, pool, entries, packages, ids);
  }

  lemma NothingPackaged(net: Network, pool: seq<Transaction>, entries: Entries, sorted: seq<Hash>)
    ensures ClosedForward(PoolLinks(net, pool), Ids(net, pool), {}) && Progress(net, pool, entries, [], {})
    ensures Members(sorted[..0]) == {} && Separate([]) && FirstsAmong([], sorted[..0])
  {
  }

  lemma MembersStep(s: seq<Hash>, k: nat)
    requires k < |s|
    ensures Members(s[..k + 1]) == Members(s[..k]) + {s[k]} && s[k] in Members(s)
  {
    assert s[..k + 1] == s[..k] + [s[k]];
  }

  lemma FirstsStep(packages: seq<Package>, s: seq<Hash>, k: nat)
    requires k < |s| && FirstsAmong(packages, s[..k])
    ensures FirstsAmong(packages, s[..k + 1])
  {
    assert s[..k + 1] == s[..k] + [s[k]];
  }

  // A package of unseen transactions collected from the next unseen id comes next.
  lemma PackagedNext(net: Network, pool: seq<Transaction>, entries: Entries, packages: seq<Package>, sorted: seq<Hash>,
                     k: nat, seen: set<Hash>, p: Package)
    requires k < |sorted| && Ascending(sorted) && Members(sorted) == Ids(net, pool) && Members(sorted[..k]) <= seen
    requires Progress(net, pool, entries, packages, seen) && Separate(packages) && FirstsAmong(packages, sorted[..k])
    requires IsPackage(net, pool, entries, p) && sorted[k] in ComponentOf(net, pool, sorted[k]) &&
             Members(p.txids) == ComponentOf(net, pool, sorted[k])
    requires Members(p.txids) !! seen
    ensures Progress(net, pool, entries, packages + [p], seen + Members(p.txids))
    ensures Separate(packages + [p]) && FirstsAmong(packages + [p], sorted[..k + 1])
  {
    FirstIsRoot(net, pool, entries, sorted, k, seen, p);
    ProgressStep(net, pool, entries, packages, seen, p);
    hide ComponentOf, Members, Ascending;
    AddSeparate(packages, p, sorted, k, seen);
  }

  lemma ProgressGives(net: Network, pool: seq<Transaction>, entries: Entries, packages: seq<Package>, ids: set<Hash>)
    requires Progress(net, pool, entries, packages, ids) && Separate(packages)
    ensures forall p <- packages :: IsPackage(net, pool, entries, p)
    ensures forall h <- ids :: exists p :: p in packages && h in p.txids
    ensures TotalFee(packages) == SumOver(Fees(entries), ids) && TotalVsize(packages) == SumOver(Vsizes(entries), ids)
  {
    AllPackaged(packages);
  }
}
