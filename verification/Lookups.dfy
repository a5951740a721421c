// Where transactions are (netcoin/chain.py, Blockchain._index_block): the place of every
// confirmed txid, and the txids that touch an address.
module Lookups {
  import opened Ledger
  import opened Usernames
  import UtxoIndex

  datatype Place = Place(blockHash: Hash, height: int, position: nat)

  datatype Lookup = Lookup(places: map<Hash, Place>, touching: map<Address, set<Hash>>)

  const NOWHERE := Lookup(map[], map[])

  // A transaction touches the addresses it pays and those whose recorded coins it spends.
  function PaidAddresses(outputs: seq<TxOutput>, count: nat): set<Address>
    requires count <= |outputs|
  {
    set i | 0 <= i < count && outputs[i].address != "" :: outputs[i].address
  }

  function Touched(r: Registry, tx: Transaction): set<Address> {
    PaidAddresses(tx.outputs, |tx.outputs|) + if tx.IsCoinbase() then {} else SpentAddresses(r, tx) - {""}
  }

  function Touch(touching: map<Address, set<Hash>>, addresses: set<Address>, id: Hash): map<Address, set<Hash>> {
    map a | a in touching.Keys + addresses ::
      (if a in touching then touching[a] else {}) + (if a in addresses then {id} else {})
  }

  function LookUpTx(net: Network, l: Lookup, r: Registry, b: Block, i: nat): Lookup
    requires i < |b.transactions|
  {
    var id := net.txid(b.transactions[i]);
    Lookup(l.places[id := Place(net.BlockHash(b), b.header.height, i)],
           Touch(l.touching, Touched(r, b.transactions[i]), id))
  }

  // The first `count` transactions of a block; `r` is the registry before the block.
  function LookUpTxs(net: Network, l: Lookup, r: Registry, b: Block, count: nat): Lookup
    requires count <= |b.transactions|
  {
    if count == 0 then l
    else LookUpTx(net, LookUpTxs(net, l, r, b, count - 1), IndexTxs(net, r, b, count - 1), b, count - 1)
  }

  function LookUpBlock(net: Network, l: Lookup, r: Registry, b: Block): Lookup {
    LookUpTxs(net, l, r, b, |b.transactions|)
  }

  // The specification of the lookup tables: index every block from the first one.
  function ReplayLookup(net: Network, blocks: seq<Block>): Lookup {
    if blocks == [] then NOWHERE
    else
      var prefix := blocks[..|blocks| - 1];
      LookUpBlock(net, ReplayLookup(net, prefix), ReplayNames(net, prefix), blocks[|blocks| - 1])
  }

  // ---- places ----

  ghost predicate HoldsId(net: Network, b: Block, count: nat, id: Hash)
    requires count <= |b.transactions|
  {
    exists i :: 0 <= i < count && net.txid(b.transactions[i]) == id
  }

  // Position i is the last of the first `count` to carry the txid.
  ghost predicate IsLastIn(net: Network, b: Block, count: nat, id: Hash, i: nat)
    requires count <= |b.transactions|
  {
    i < count && net.txid(b.transactions[i]) == id && forall j :: i < j < count ==> net.txid(b.transactions[j]) != id
  }

  lemma {:induction false} PlacesAlongBlock(net: Network, l: Lookup, r: Registry, b: Block, count: nat, id: Hash)
    requires count <= |b.transactions|
    ensures var p := LookUpTxs(net, l, r, b, count).places;
            if HoldsId(net, b, count, id) then
              && id in p && p[id] == Place(net.BlockHash(b), b.header.height, p[id].position)
              && IsLastIn(net, b, count, id, p[id].position)
            else (id in p <==> id in l.places) && (id in p ==> p[id] == l.places[id])
  {
    hide IndexTxs, Touch, Touched;
    if count > 0 {
      PlacesAlongBlock(net, l, r, b, count - 1, id);
      HoldsIdStep(net, b, count, id);
    }
  }

  lemma HoldsIdStep(net: Network, b: Block, count: nat, id: Hash)
    requires 0 < count <= |b.transactions|
    ensures HoldsId(net, b, count, id) <==> HoldsId(net, b, count - 1, id) || net.txid(b.transactions[count - 1]) == id
  {
  }

  ghost predicate Confirmed(net: Network, b: Block, id: Hash) {
    HoldsId(net, b, |b.transactions|, id)
  }

  ghost predicate InChain(net: Network, blocks: seq<Block>, id: Hash) {
    exists k :: 0 <= k < |blocks| && Confirmed(net, blocks[k], id)
  }

  // The last transaction of the blocks with the txid is at this place of block k.
  ghost predicate IsLastPlace(net: Network, blocks: seq<Block>, id: Hash, p: Place, k: nat) {
    && k < |blocks| && p.blockHash == net.BlockHash(blocks[k]) && p.height == blocks[k].header.height
    && IsLastIn(net, blocks[k], |blocks[k].transactions|, id, p.position)
    && forall j :: k < j < |blocks| ==> !Confirmed(net, blocks[j], id)
  }

  // The table holds exactly the confirmed txids ...
  lemma {:induction false} PlacesAreConfirmed(net: Network, blocks: seq<Block>, id: Hash)
    ensures id in ReplayLookup(net, blocks).places <==> InChain(net, blocks, id)
  {
    hide LookUpTxs, IsLastIn, HoldsId;
    if blocks != [] {
      var prefix, last := blocks[..|blocks| - 1], blocks[|blocks| - 1];
      PlacesAreConfirmed(net, prefix, id);
      PlacesAlongBlock(net, ReplayLookup(net, prefix), ReplayNames(net, prefix), last, |last.transactions|, id);
      ConfirmedStep(net, blocks, id);
    }
  }

  lemma ConfirmedStep(net: Network, blocks: seq<Block>, id: Hash)
    requires blocks != []
    ensures InChain(net, blocks, id) <==>
              InChain(net, blocks[..|blocks| - 1], id) || Confirmed(net, blocks[|blocks| - 1], id)
  {
    hide Confirmed;
    var prefix := blocks[..|blocks| - 1];
    assert forall k :: 0 <= k < |prefix| ==> prefix[k] == blocks[k];
  }

  // ... each with its last place.
  lemma {:induction false} PlacesAreLast(net: Network, blocks: seq<Block>, id: Hash) returns (k: nat)
    requires id in ReplayLookup(net, blocks).places
    ensures IsLastPlace(net, blocks, id, ReplayLookup(net, blocks).places[id], k)
  {
    hide LookUpTxs, IsLastIn, HoldsId, ReplayNames;
    var prefix, last := blocks[..|blocks| - 1], blocks[|blocks| - 1];
    PlacesAlongBlock(net, ReplayLookup(net, prefix), ReplayNames(net, prefix), last, |last.transactions|, id);
    k := |blocks| - 1;
    if !Confirmed(net, last, id) {
      k := PlacesAreLast(net, prefix, id);
    }
  }

  // ---- addresses ----

  ghost predicate Listed(l: Lookup, a: Address, id: Hash) {
    a in l.touching && id in l.touching[a]
  }

  // Transaction i of the block, the registry being `r` before the block, touches the address.
  ghost predicate TouchesIn(net: Network, r: Registry, b: Block, i: int, a: Address, id: Hash) {
    && 0 <= i < |b.transactions| && net.txid(b.transactions[i]) == id
    && a in Touched(IndexTxs(net, r, b, i), b.transactions[i])
  }

  ghost predicate TouchesAt(net: Network, blocks: seq<Block>, k: int, i: int, a: Address, id: Hash) {
    0 <= k < |blocks| && TouchesIn(net, ReplayNames(net, blocks[..k]), blocks[k], i, a, id)
  }

  lemma TouchedStep(net: Network, l: Lookup, r: Registry, b: Block, i: nat, a: Address, id: Hash)
    requires i < |b.transactions|
    ensures Listed(LookUpTx(net, l, IndexTxs(net, r, b, i), b, i), a, id) <==>
              Listed(l, a, id) || TouchesIn(net, r, b, i, a, id)
  {
    hide Touched, IndexTxs;
  }

  lemma {:induction false} TouchedAlongBlock(net: Network, l: Lookup, r: Registry, b: Block, count: nat, a: Address,
                                             id: Hash)
    requires count <= |b.transactions|
    ensures Listed(LookUpTxs(net, l, r, b, count), a, id) <==>
              Listed(l, a, id) || exists i :: 0 <= i < count && TouchesIn(net, r, b, i, a, id)
  {
    hide Listed, TouchesIn, LookUpTx, IndexTxs;
    if count > 0 {
      TouchedAlongBlock(net, l, r, b, count - 1, a, id);
      TouchedStep(net, LookUpTxs(net, l, r, b, count - 1), r, b, count - 1, a, id);
    }
  }

  // An address lists exactly the txids of the transactions that touch it.
  lemma {:induction false} TouchedExactly(net: Network, blocks: seq<Block>, a: Address, id: Hash)
    ensures Listed(ReplayLookup(net, blocks), a, id) <==> exists k, i :: TouchesAt(net, blocks, k, i, a, id)
  {
    hide Listed, TouchesIn, LookUpTxs, ReplayNames;
    if blocks == [] {
      NothingListed(a, id);
    } else {
      var prefix, last := blocks[..|blocks| - 1], blocks[|blocks| - 1];
      var r, n := ReplayNames(net, prefix), |last.transactions|;
      TouchedExactly(net, prefix, a, id);
      TouchedAlongBlock(net, ReplayLookup(net, prefix), r, last, n, a, id);
      TouchesBound(net, r, last, a, id);
      if i :| 0 <= i < n && TouchesIn(net, r, last, i, a, id) {
        assert TouchesAt(net, blocks, |blocks| - 1, i, a, id);
      }
      if k, i :| TouchesAt(net, prefix, k, i, a, id) {
        assert prefix[..k] == blocks[..k];
        assert TouchesAt(net, blocks, k, i, a, id);
      }
      if k, i :| TouchesAt(net, blocks, k, i, a, id) && k < |blocks| - 1 {
        assert prefix[..k] == blocks[..k];
        assert TouchesAt(net, prefix, k, i, a, id);
      }
    }
  }

  lemma NothingListed(a: Address, id: Hash)
    ensures !Listed(NOWHERE, a, id)
  {
  }

  lemma TouchesBound(net: Network, r: Registry, b: Block, a: Address, id: Hash)
    ensures forall i :: TouchesIn(net, r, b, i, a, id) ==> 0 <= i < |b.transactions|
  {
  }

  // Paying an address touches it.
  lemma PayingTouches(net: Network, blocks: seq<Block>, k: nat, i: nat, vout: nat)
    requires k < |blocks| && i < |blocks[k].transactions| && vout < |blocks[k].transactions[i].outputs|
    requires blocks[k].transactions[i].outputs[vout].address != ""
    ensures var tx := blocks[k].transactions[i];
            TouchesAt(net, blocks, k, i, tx.outputs[vout].address, net.txid(tx))
  {
    hide IndexTxs, SpentAddresses;
  }

  // Spending a connected coin that pays an address touches that address.
  lemma SpendingTouches(net: Network, blocks: seq<Block>, k: nat, i: nat, j: nat)
    requires net.Ideal() && k < |blocks| && i < |blocks[k].transactions| && j < |blocks[k].transactions[i].inputs|
    requires !blocks[k].transactions[i].IsCoinbase()
    requires var u := ConnectTxs(net, blocks[k].transactions, i, Replay(net, blocks[..k]), blocks[k].header.height);
             var op := blocks[k].transactions[i].inputs[j].prevout;
             op in u && u[op].output.address != ""
    ensures var u := ConnectTxs(net, blocks[k].transactions, i, Replay(net, blocks[..k]), blocks[k].header.height);
            var tx := blocks[k].transactions[i];
            TouchesAt(net, blocks, k, i, u[tx.inputs[j].prevout].output.address, net.txid(tx))
  {
    hide Network.Ideal, ConnectTxs, IndexTxs, UtxoIndex.AllSourced, ReplayNames, Replay;
    ReplayedOwnersMatch(net, blocks[..k]);
    UtxoIndex.ReplayIsSourced(net, blocks[..k]);
    IndexTxsKeepOwners(net, ReplayNames(net, blocks[..k]), Replay(net, blocks[..k]), blocks[k], i);
  }

  // ---- the loops of the index ----

  lemma TouchNone(touching: map<Address, set<Hash>>, id: Hash)
    ensures Touch(touching, {}, id) == touching
  {
    forall a | a in touching
      ensures a in Touch(touching, {}, id) && Touch(touching, {}, id)[a] == touching[a]
    {
    }
  }

  lemma TouchTwice(touching: map<Address, set<Hash>>, a: set<Address>, b: set<Address>, id: Hash)
    ensures Touch(Touch(touching, a, id), b, id) == Touch(touching, a + b, id)
  {
    var once, both := Touch(touching, a, id), Touch(touching, a + b, id);
    var twice := Touch(once, b, id);
    assert twice.Keys == both.Keys;
    forall x | x in both
      ensures twice[x] == both[x]
    {
    }
  }

  method TouchPaid(touching: map<Address, set<Hash>>, outputs: seq<TxOutput>, id: Hash)
    returns (after: map<Address, set<Hash>>)
    ensures after == Touch(touching, PaidAddresses(outputs, |outputs|), id)
  {
    hide Touch;
    after := touching;
    TouchNone(touching, id);
    assert PaidAddresses(outputs, 0) == {};
    for i := 0 to |outputs|
      invariant after == Touch(touching, PaidAddresses(outputs, i), id)
    {
      var a := outputs[i].address;
      if a != "" {
        TouchTwice(touching, PaidAddresses(outputs, i), {a}, id);
        assert PaidAddresses(outputs, i + 1) == PaidAddresses(outputs, i) + {a};
        after := Touch(after, {a}, id);
      } else {
        assert PaidAddresses(outputs, i + 1) == PaidAddresses(outputs, i);
      }
    }
  }

  method TouchSpent(touching: map<Address, set<Hash>>, owners: map<Outpoint, Address>, inputs: seq<TxInput>, id: Hash)
    returns (after: map<Address, set<Hash>>)
    ensures after == Touch(touching, SpentUpTo(owners, inputs, |inputs|) - {""}, id)
  {
    hide Touch;
    after := touching;
    TouchNone(touching, id);
    assert SpentUpTo(owners, inputs, 0) - {""} == {};
    for i := 0 to |inputs|
      invariant after == Touch(touching, SpentUpTo(owners, inputs, i) - {""}, id)
    {
      var op := inputs[i].prevout;
      if op in owners && owners[op] != "" {
        TouchTwice(touching, SpentUpTo(owners, inputs, i) - {""}, {owners[op]}, id);
        assert SpentUpTo(owners, inputs, i + 1) - {""} == SpentUpTo(owners, inputs, i) - {""} + {owners[op]};
        after := Touch(after, {owners[op]}, id);
      } else {
        assert SpentUpTo(owners, inputs, i + 1) - {""} == SpentUpTo(owners, inputs, i) - {""};
      }
    }
  }

  // The tables after one more transaction, `owners` being those recorded before it.
  method LookUpTransaction(net: Network, l: Lookup, r: Registry, b: Block, i: nat) returns (after: Lookup)
    requires i < |b.transactions|
    ensures after == LookUpTx(net, l, r, b, i)
  {
    hide Touch, SpentUpTo, PaidAddresses;
    var tx := b.transactions[i];
    var id := net.txid(tx);
    var places := l.places[id := Place(net.BlockHash(b), b.header.height, i)];
    var touching := l.touching;
    ghost var spent := if tx.IsCoinbase() then {} else SpentAddresses(r, tx) - {""};
    TouchNone(touching, id);
    if !tx.IsCoinbase() {
      touching := TouchSpent(touching, r.owners, tx.inputs, id);
    }
    touching := TouchPaid(touching, tx.outputs, id);
    TouchTwice(l.touching, spent, PaidAddresses(tx.outputs, |tx.outputs|), id);
    assert spent + PaidAddresses(tx.outputs, |tx.outputs|) == Touched(r, tx);
    after := Lookup(places, touching);
  }
}
