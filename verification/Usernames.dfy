// On-chain usernames (netcoin/chain.py): the first confirmed claim wins, and only a spend of
// one of the current owner's coins can hand a name over.
module Usernames {
  import opened Wrappers
  import opened Ledger
  import UtxoIndex

  const CLAIM_TAG := "OP_RETURN NETCOIN_USERNAME "
  const TRANSFER_TAG := "OP_RETURN NETCOIN_USERNAME_TRANSFER "
  const MAX_NAME_LENGTH := 32
  const ALLOWED := "abcdefghijklmnopqrstuvwxyz0123456789-_"

  datatype Claim = Claim(address: Address, txid: Hash, height: int, blockHash: Hash, claimedAt: int,
                         previousOwner: Option<Address>)

  // `owners` records the address each indexed, unspent outpoint pays to.
  datatype Registry = Registry(claims: map<string, Claim>, owners: map<Outpoint, Address>)

  const EMPTY := Registry(map[], map[])

  predicate IsName(name: string) {
    0 < |name| <= MAX_NAME_LENGTH && forall i :: 0 <= i < |name| ==> name[i] in ALLOWED
  }

  function ParseTagged(net: Network, script: string, tag: string): Option<string> {
    if !(tag <= script) then None
    else
      var name := net.normalizedName(script[|tag|..]);
      if IsName(name) then Some(name) else None
  }

  // Only the first output without an address is looked at, whether it parses or not.
  function TaggedName(net: Network, outputs: seq<TxOutput>, tag: string): Option<string> {
    if outputs == [] then None
    else if outputs[0].address == "" then ParseTagged(net, outputs[0].script, tag)
    else TaggedName(net, outputs[1..], tag)
  }

  function FirstAddress(outputs: seq<TxOutput>): Address {
    if outputs == [] then ""
    else if outputs[0].address != "" then outputs[0].address
    else FirstAddress(outputs[1..])
  }

  // Which of the first `count` outputs of a transaction pay to an address; zero amounts
  // count here.
  function PaidUpTo(id: Hash, outputs: seq<TxOutput>, count: nat): (m: map<Outpoint, Address>)
    requires count <= |outputs|
    ensures forall op :: op in m <==> op.txid == id && 0 <= op.vout < count && outputs[op.vout].address != ""
    ensures forall op :: op in m ==> m[op] == outputs[op.vout].address
  {
    if count == 0 then map[]
    else
      var earlier := PaidUpTo(id, outputs, count - 1);
      if outputs[count - 1].address != "" then earlier[Outpoint(id, count - 1) := outputs[count - 1].address]
      else earlier
  }

  function Paid(net: Network, tx: Transaction): map<Outpoint, Address> {
    PaidUpTo(net.txid(tx), tx.outputs, |tx.outputs|)
  }

  // Addresses whose recorded coins the first `count` inputs of a transaction spend.
  function SpentUpTo(owners: map<Outpoint, Address>, inputs: seq<TxInput>, count: nat): set<Address>
    requires count <= |inputs|
  {
    set i | 0 <= i < count && inputs[i].prevout in owners :: owners[inputs[i].prevout]
  }

  function SpentAddresses(r: Registry, tx: Transaction): set<Address> {
    SpentUpTo(r.owners, tx.inputs, |tx.inputs|)
  }

  function AfterClaim(net: Network, claims: map<string, Claim>, tx: Transaction, b: Block): map<string, Claim> {
    var name := TaggedName(net, tx.outputs, CLAIM_TAG);
    var owner := FirstAddress(tx.outputs);
    if name.Some? && name.value !in claims && owner != "" then
      claims[name.value := Claim(owner, net.txid(tx), b.header.height, net.BlockHash(b), b.header.timestamp, None)]
    else claims
  }

  function AfterTransfer(net: Network, claims: map<string, Claim>, spent: set<Address>, tx: Transaction,
                         b: Block): map<string, Claim> {
    var name := TaggedName(net, tx.outputs, TRANSFER_TAG);
    var owner := FirstAddress(tx.outputs);
    if name.Some? && name.value in claims && claims[name.value].address in spent && owner != "" then
      claims[name.value := Claim(owner, net.txid(tx), b.header.height, net.BlockHash(b), b.header.timestamp,
                                 Some(claims[name.value].address))]
    else claims
  }

  function IndexTx(net: Network, r: Registry, tx: Transaction, b: Block): Registry {
    if tx.IsCoinbase() then r.(owners := r.owners + Paid(net, tx))
    else
      var spent := SpentAddresses(r, tx);
      Registry(AfterTransfer(net, AfterClaim(net, r.claims, tx, b), spent, tx, b),
               (r.owners + Paid(net, tx)) - SpentBy(tx))
  }

  function IndexTxs(net: Network, r: Registry, b: Block, count: nat): Registry
    requires count <= |b.transactions|
  {
    if count == 0 then r else IndexTx(net, IndexTxs(net, r, b, count - 1), b.transactions[count - 1], b)
  }

  function IndexBlock(net: Network, r: Registry, b: Block): Registry {
    IndexTxs(net, r, b, |b.transactions|)
  }

  // The specification of the registry: index every block from the first one.
  function ReplayNames(net: Network, blocks: seq<Block>): Registry {
    if blocks == [] then EMPTY
    else IndexBlock(net, ReplayNames(net, blocks[..|blocks| - 1]), blocks[|blocks| - 1])
  }

  // ---- what a registry guarantees ----

  // `tx` hands `name` over: it carries the transfer tag and spends a coin recorded as the
  // current owner's.
  ghost predicate HandsOver(net: Network, r: Registry, tx: Transaction, name: string) {
    && !tx.IsCoinbase()
    && TaggedName(net, tx.outputs, TRANSFER_TAG) == Some(name)
    && name in r.claims
    && exists i :: 0 <= i < |tx.inputs| && tx.inputs[i].prevout in r.owners
                   && r.owners[tx.inputs[i].prevout] == r.claims[name].address
  }

  // One transaction never removes a name, and changes a claimed one only by handing it over.
  lemma ClaimStands(net: Network, r: Registry, tx: Transaction, b: Block, name: string)
    requires name in r.claims
    ensures name in IndexTx(net, r, tx, b).claims
    ensures IndexTx(net, r, tx, b).claims[name] != r.claims[name] ==> HandsOver(net, r, tx, name)
  {
  }

  // Somewhere in the blocks from position `from` on, `name` is handed over by a transaction
  // that sees the registry replayed up to exactly that point.
  ghost predicate HandedOver(net: Network, blocks: seq<Block>, from: nat, name: string) {
    exists k, i :: from <= k < |blocks| && HandedOverAt(net, blocks, k, i, name)
  }

  ghost predicate HandedOverAt(net: Network, blocks: seq<Block>, k: nat, i: int, name: string) {
    && k < |blocks| && 0 <= i < |blocks[k].transactions|
    && HandsOver(net, IndexTxs(net, ReplayNames(net, blocks[..k]), blocks[k], i), blocks[k].transactions[i], name)
  }

  lemma {:induction false} ClaimStandsInBlock(net: Network, r: Registry, b: Block, count: nat, name: string)
    returns (at: int)
    requires count <= |b.transactions| && name in r.claims
    ensures name in IndexTxs(net, r, b, count).claims
    ensures IndexTxs(net, r, b, count).claims[name] != r.claims[name] ==>
              0 <= at < count && HandsOver(net, IndexTxs(net, r, b, at), b.transactions[at], name)
  {
    hide IndexTx, HandsOver;
    at := 0;
    if count > 0 {
      var earlier := IndexTxs(net, r, b, count - 1);
      at := ClaimStandsInBlock(net, r, b, count - 1, name);
      ClaimStands(net, earlier, b.transactions[count - 1], b, name);
      if earlier.claims[name] == r.claims[name] {
        at := count - 1;
      }
    }
  }

  // Along any extension of a chain a claimed name never disappears, and its record stands
  // unless some transaction of the extension hands the name over.
  lemma {:induction false} ClaimStandsAlongChain(net: Network, blocks: seq<Block>, from: nat, name: string)
    requires from <= |blocks| && name in ReplayNames(net, blocks[..from]).claims
    ensures name in ReplayNames(net, blocks).claims
    ensures ReplayNames(net, blocks).claims[name] != ReplayNames(net, blocks[..from]).claims[name] ==>
              HandedOver(net, blocks, from, name)
    decreases |blocks|
  {
    hide IndexBlock, HandsOver;
    if from == |blocks| {
      assert blocks[..from] == blocks;
    } else {
      var prefix, last := blocks[..|blocks| - 1], |blocks| - 1;
      assert prefix[..from] == blocks[..from];
      ClaimStandsAlongChain(net, prefix, from, name);
      LastBlockKeepsClaim(net, blocks, name);
      if HandedOver(net, prefix, from, name) {
        var k, i :| from <= k < |prefix| && HandedOverAt(net, prefix, k, i, name);
        assert prefix[..k] == blocks[..k] && prefix[k] == blocks[k];
        assert HandedOverAt(net, blocks, k, i, name);
      }
    }
  }

  lemma LastBlockKeepsClaim(net: Network, blocks: seq<Block>, name: string)
    requires blocks != [] && name in ReplayNames(net, blocks[..|blocks| - 1]).claims
    ensures name in ReplayNames(net, blocks).claims
    ensures ReplayNames(net, blocks).claims[name] != ReplayNames(net, blocks[..|blocks| - 1]).claims[name] ==>
              HandedOver(net, blocks, |blocks| - 1, name)
  {
    hide HandsOver, IndexTxs;
    var last := blocks[|blocks| - 1];
    var at := ClaimStandsInBlock(net, ReplayNames(net, blocks[..|blocks| - 1]), last, |last.transactions|, name);
    if ReplayNames(net, blocks).claims[name] != ReplayNames(net, blocks[..|blocks| - 1]).claims[name] {
      assert HandedOverAt(net, blocks, |blocks| - 1, at, name);
    }
  }

  // ---- how a name gets into the registry, and where it goes ----

  // Output i is the first that pays to an address.
  ghost predicate IsFirstAddressed(outputs: seq<TxOutput>, i: int) {
    0 <= i < |outputs| && outputs[i].address != "" && forall j :: 0 <= j < i ==> outputs[j].address == ""
  }

  // The first output without an address carries the tag and, after it, the name.
  ghost predicate Carries(net: Network, tx: Transaction, tag: string, name: string) {
    exists i :: CarriesAt(net, tx.outputs, i, tag, name)
  }

  ghost predicate CarriesAt(net: Network, outputs: seq<TxOutput>, i: int, tag: string, name: string) {
    && 0 <= i < |outputs| && outputs[i].address == "" && (forall j :: 0 <= j < i ==> outputs[j].address != "")
    && |tag| <= |outputs[i].script| && outputs[i].script[..|tag|] == tag
    && net.normalizedName(outputs[i].script[|tag|..]) == name
    && 1 <= |name| <= 32 && forall c :: c in name ==> c in ALLOWED
  }

  lemma {:induction false} TaggedNameExactly(net: Network, outputs: seq<TxOutput>, tag: string, name: string)
    ensures TaggedName(net, outputs, tag) == Some(name) <==> exists i :: CarriesAt(net, outputs, i, tag, name)
  {
    if outputs != [] {
      var rest := outputs[1..];
      if outputs[0].address != "" {
        TaggedNameExactly(net, rest, tag, name);
        if i :| CarriesAt(net, rest, i, tag, name) {
          assert CarriesAt(net, outputs, i + 1, tag, name);
        }
        if i :| CarriesAt(net, outputs, i, tag, name) {
          assert CarriesAt(net, rest, i - 1, tag, name);
        }
      } else {
        PrefixIsSlice(tag, outputs[0].script);
        FirstPlainCarries(net, outputs, tag, name);
      }
    }
  }

  lemma PrefixIsSlice(tag: string, script: string)
    ensures tag <= script <==> |tag| <= |script| && script[..|tag|] == tag
  {
  }

  lemma FirstPlainCarries(net: Network, outputs: seq<TxOutput>, tag: string, name: string)
    requires outputs != [] && outputs[0].address == ""
    ensures (exists i :: CarriesAt(net, outputs, i, tag, name)) <==> CarriesAt(net, outputs, 0, tag, name)
    ensures CarriesAt(net, outputs, 0, tag, name) <==>
            && |tag| <= |outputs[0].script| && outputs[0].script[..|tag|] == tag
            && net.normalizedName(outputs[0].script[|tag|..]) == name && IsName(name)
  {
    assert forall k :: 0 <= k < |name| ==> name[k] in name;
  }

  lemma {:induction false} FirstAddressExactly(outputs: seq<TxOutput>, i: nat)
    requires IsFirstAddressed(outputs, i)
    ensures FirstAddress(outputs) == outputs[i].address
  {
    if i > 0 {
      FirstAddressExactly(outputs[1..], i - 1);
    }
  }

  lemma {:induction false} NoAddressNoOwner(outputs: seq<TxOutput>)
    ensures FirstAddress(outputs) != "" <==> exists i :: IsFirstAddressed(outputs, i)
  {
    if outputs != [] {
      if outputs[0].address != "" {
        assert IsFirstAddressed(outputs, 0);
      } else {
        NoAddressNoOwner(outputs[1..]);
        if i :| IsFirstAddressed(outputs[1..], i) {
          assert IsFirstAddressed(outputs, i + 1);
        }
        if i :| IsFirstAddressed(outputs, i) {
          assert IsFirstAddressed(outputs[1..], i - 1);
        }
      }
    }
  }

  // One output cannot carry both tags, so no transaction claims and hands over at once.
  lemma OneTagAtATime(net: Network, tx: Transaction, n: string, m: string)
    ensures !(Carries(net, tx, CLAIM_TAG, n) && Carries(net, tx, TRANSFER_TAG, m))
  {
    if Carries(net, tx, CLAIM_TAG, n) && Carries(net, tx, TRANSFER_TAG, m) {
      var i :| CarriesAt(net, tx.outputs, i, CLAIM_TAG, n);
      PrefixIsSlice(CLAIM_TAG, tx.outputs[i].script);
      PrefixIsSlice(TRANSFER_TAG, tx.outputs[i].script);
      TagsAreDisjoint(tx.outputs[i].script);
      assert false;
    }
  }

  // A claim for a free name enters it: the owner is the first address the transaction pays,
  // and the record says where the claim was made.
  lemma ClaimRegisters(net: Network, r: Registry, tx: Transaction, b: Block, name: string, i: nat)
    requires !tx.IsCoinbase() && Carries(net, tx, CLAIM_TAG, name) && IsFirstAddressed(tx.outputs, i)
    requires name !in r.claims
    ensures name in IndexTx(net, r, tx, b).claims
    ensures IndexTx(net, r, tx, b).claims[name]
         == Claim(tx.outputs[i].address, net.txid(tx), b.header.height, net.BlockHash(b), b.header.timestamp, None)
  {
    TaggedNameExactly(net, tx.outputs, CLAIM_TAG, name);
    FirstAddressExactly(tx.outputs, i);
    NotATransfer(net, tx, name);
    hide TaggedName, FirstAddress, SpentAddresses, Paid;
  }

  lemma NotATransfer(net: Network, tx: Transaction, name: string)
    requires Carries(net, tx, CLAIM_TAG, name)
    ensures TaggedName(net, tx.outputs, TRANSFER_TAG).None?
  {
    var other := TaggedName(net, tx.outputs, TRANSFER_TAG);
    if other.Some? {
      TaggedNameExactly(net, tx.outputs, TRANSFER_TAG, other.value);
      OneTagAtATime(net, tx, name, other.value);
    }
  }

  // Handing a name over makes the first address the transaction pays its owner.
  lemma HandoverMoves(net: Network, r: Registry, tx: Transaction, b: Block, name: string, i: nat)
    requires HandsOver(net, r, tx, name) && IsFirstAddressed(tx.outputs, i)
    ensures name in IndexTx(net, r, tx, b).claims
    ensures IndexTx(net, r, tx, b).claims[name]
         == Claim(tx.outputs[i].address, net.txid(tx), b.header.height, net.BlockHash(b), b.header.timestamp,
                  Some(r.claims[name].address))
  {
    FirstAddressExactly(tx.outputs, i);
    TaggedNameExactly(net, tx.outputs, TRANSFER_TAG, name);
    NotAClaim(net, tx, name);
    assert r.claims[name].address in SpentAddresses(r, tx);
    hide TaggedName, FirstAddress, SpentAddresses, Paid;
  }

  lemma NotAClaim(net: Network, tx: Transaction, name: string)
    requires Carries(net, tx, TRANSFER_TAG, name)
    ensures TaggedName(net, tx.outputs, CLAIM_TAG).None?
  {
    var other := TaggedName(net, tx.outputs, CLAIM_TAG);
    if other.Some? {
      TaggedNameExactly(net, tx.outputs, CLAIM_TAG, other.value);
      OneTagAtATime(net, tx, other.value, name);
    }
  }

  // What counts as a claim: the claim tag, and an address to own the name.
  ghost predicate IsClaim(net: Network, tx: Transaction, name: string) {
    !tx.IsCoinbase() && Carries(net, tx, CLAIM_TAG, name) && exists i :: IsFirstAddressed(tx.outputs, i)
  }

  lemma TxClaimsExactly(net: Network, r: Registry, tx: Transaction, b: Block, name: string)
    ensures name in IndexTx(net, r, tx, b).claims <==> name in r.claims || IsClaim(net, tx, name)
  {
    TaggedNameExactly(net, tx.outputs, CLAIM_TAG, name);
    NoAddressNoOwner(tx.outputs);
    if name in r.claims {
      ClaimStands(net, r, tx, b, name);
    } else if IsClaim(net, tx, name) {
      var i :| IsFirstAddressed(tx.outputs, i);
      ClaimRegisters(net, r, tx, b, name, i);
    }
    hide TaggedName, FirstAddress, SpentAddresses, Paid, Carries, IsFirstAddressed;
  }

  ghost predicate ClaimedAt(net: Network, blocks: seq<Block>, k: int, i: int, name: string) {
    0 <= k < |blocks| && 0 <= i < |blocks[k].transactions| && IsClaim(net, blocks[k].transactions[i], name)
  }

  lemma {:induction false} BlockClaimsExactly(net: Network, r: Registry, b: Block, count: nat, name: string)
    requires count <= |b.transactions|
    ensures name in IndexTxs(net, r, b, count).claims <==>
              name in r.claims || exists i :: 0 <= i < count && IsClaim(net, b.transactions[i], name)
  {
    hide IndexTx, IsClaim;
    if count > 0 {
      BlockClaimsExactly(net, r, b, count - 1, name);
      TxClaimsExactly(net, IndexTxs(net, r, b, count - 1), b.transactions[count - 1], b, name);
    }
  }

  // The registry holds exactly the names that some transaction of the chain claims.
  lemma {:induction false} NamesAreClaimedExactly(net: Network, blocks: seq<Block>, name: string)
    ensures name in ReplayNames(net, blocks).claims <==> exists k, i :: ClaimedAt(net, blocks, k, i, name)
  {
    hide IndexTxs, IsClaim;
    if blocks != [] {
      var prefix, n := blocks[..|blocks| - 1], |blocks| - 1;
      NamesAreClaimedExactly(net, prefix, name);
      BlockClaimsExactly(net, ReplayNames(net, prefix), blocks[n], |blocks[n].transactions|, name);
      if k, i :| ClaimedAt(net, prefix, k, i, name) {
        assert ClaimedAt(net, blocks, k, i, name);
      }
      if i :| 0 <= i < |blocks[n].transactions| && IsClaim(net, blocks[n].transactions[i], name) {
        assert ClaimedAt(net, blocks, n, i, name);
      }
      if k, i :| ClaimedAt(net, blocks, k, i, name) && k < n {
        assert ClaimedAt(net, prefix, k, i, name);
      }
    }
  }

  // ---- recorded owners are real owners ----

  // Every unspent coin that pays to an address is recorded under that address.
  ghost predicate OwnersMatch(r: Registry, u: Utxos) {
    forall op :: op in u && u[op].output.address != "" ==> op in r.owners && r.owners[op] == u[op].output.address
  }

  lemma OwnOutputsAreNotSpent(net: Network, tx: Transaction)
    requires net.Ideal()
    ensures forall op :: op in SpentBy(tx) ==> op.txid != net.txid(tx)
  {
  }

  lemma CreatedArePaid(net: Network, tx: Transaction, height: int, coinbase: bool)
    ensures var created := CreatedBy(net, tx, height, coinbase);
            forall op :: op in created ==>
              && op.txid == net.txid(tx)
              && (created[op].output.address != "" ==>
                    op in Paid(net, tx) && Paid(net, tx)[op] == created[op].output.address)
    ensures forall op :: op in Paid(net, tx) ==> op.txid == net.txid(tx)
  {
    CreatedByShape(net, tx, height, coinbase);
  }

  // A coin under a repeated txid pays the same address as the repeat does.
  lemma RepeatedCoinsArePaidAlike(net: Network, tx: Transaction, u: Utxos)
    requires net.Ideal() && UtxoIndex.AllSourced(net, u)
    ensures forall op :: op in u && op in Paid(net, tx) ==> Paid(net, tx)[op] == u[op].output.address
  {
    forall op | op in u && op in Paid(net, tx)
      ensures Paid(net, tx)[op] == u[op].output.address
    {
      var repeat := Spendable(tx.outputs[op.vout], 0, false);
      assert UtxoIndex.Sourced(net, op, repeat);
      UtxoIndex.SourceDeterminesOutput(net, op, u[op], repeat);
    }
  }

  lemma IndexTxKeepsOwners(net: Network, r: Registry, u: Utxos, tx: Transaction, b: Block)
    requires net.Ideal() && UtxoIndex.AllSourced(net, u) && OwnersMatch(r, u)
    ensures OwnersMatch(IndexTx(net, r, tx, b), ApplyTx(net, tx, u, b.header.height))
  {
    hide AfterClaim, AfterTransfer, SpentAddresses, Network.Ideal, CreatedBy, Paid, SpentBy;
    OwnOutputsAreNotSpent(net, tx);
    CreatedArePaid(net, tx, b.header.height, tx.IsCoinbase());
    RepeatedCoinsArePaidAlike(net, tx, u);
  }

  lemma {:induction false} IndexTxsKeepOwners(net: Network, r: Registry, u: Utxos, b: Block, count: nat)
    requires net.Ideal() && UtxoIndex.AllSourced(net, u) && OwnersMatch(r, u) && count <= |b.transactions|
    ensures OwnersMatch(IndexTxs(net, r, b, count), ConnectTxs(net, b.transactions, count, u, b.header.height))
  {
    hide IndexTx, ApplyTx, OwnersMatch, Network.Ideal, UtxoIndex.AllSourced;
    if count > 0 {
      IndexTxsKeepOwners(net, r, u, b, count - 1);
      UtxoIndex.ConnectKeepsSourced(net, b.transactions, count - 1, u, b.header.height);
      IndexTxKeepsOwners(net, IndexTxs(net, r, b, count - 1),
                         ConnectTxs(net, b.transactions, count - 1, u, b.header.height), b.transactions[count - 1], b);
    }
  }

  // So after replaying any chain, spending a coin of the unspent-output set that pays to an
  // address is what the registry counts as spending from that address.
  lemma {:induction false} ReplayedOwnersMatch(net: Network, blocks: seq<Block>)
    requires net.Ideal()
    ensures OwnersMatch(ReplayNames(net, blocks), Replay(net, blocks))
    decreases |blocks|
  {
    hide IndexTxs, ConnectTxs, Network.Ideal;
    if blocks != [] {
      var prefix, last := blocks[..|blocks| - 1], blocks[|blocks| - 1];
      ReplayedOwnersMatch(net, prefix);
      UtxoIndex.ReplayIsSourced(net, prefix);
      IndexTxsKeepOwners(net, ReplayNames(net, prefix), Replay(net, prefix), last, |last.transactions|);
    }
  }

  // A script is never both a claim and a transfer.
  lemma TagsAreDisjoint(script: string)
    ensures !(CLAIM_TAG <= script && TRANSFER_TAG <= script)
  {
    var at := |"OP_RETURN NETCOIN_USERNAME"|;
    assert CLAIM_TAG[at] == ' ' && TRANSFER_TAG[at] == '_';
  }
}
