# NetCoin ledger: a verified model

This project models the parts of NetCoin on which its money depends, and proves what they keep.

**The ledger.** `Node.Blockchain` is the node's `Blockchain` object: the active chain, the unspent-output set, its
per-address index, the username registry, the transaction and address lookup tables, the mempool and the pool of
off-tip blocks, updated in place by mining, block arrival, reorganisation, replacement and clock ticks. `Valid()` says
that the chain passes validation from genesis and that every derived structure equals a replay of it; each step is
proved to keep it, to state its new chain, pool and mempool, and to grow cumulative work whenever the tip changes. The
specifications those methods are proved against are functions: `Ledger` (applying and replaying), `Validation` (every
check with its error), `Mempool` (rolling and keeping), `Usernames`, `Lookups`, `ForkChoice`, `Reorg`. `Rules`,
`Standards`, `Connect`, `Chainstate`, `Supply` and `Handovers` prove what they mean: what makes a transaction, a block
and a chain acceptable, rule by rule; what a mempool keeps; the two orders of applying a coinbase; conservation and
the supply cap; who can move a name. `Returns` is what a reorganisation does to the mempool, `HiddenFork` a run of
block arrivals.

**Consensus arithmetic.** `Emission`, `CompactTarget`, `MedianTime`.

**Codecs and commitments.** `Merkle`, `Liabilities`, `BitStrings`, `Bech32`, `WitnessAddress`, `BlockFilter`,
`CompactBlocks`.

**Derived structures.** `AddressEvents`, `Indexer`, `IndexRows`, `Explorer.ChainIndexer` (the explorer index),
`MempoolGraph` and `MempoolPackages` (ancestors, descendants, packages), `HdKeys`, `Bandwidth`. `Wrappers`, `Params`,
`Arithmetic`, `Sorting` and `Reachability` are shared.

`dafny verify dfyconfig.toml` checks the whole project.

## What is assumed

Hashing is abstract. `Ledger.Network` is a record of functions for transaction and header hashes, hash pairing,
signature checks, transaction weights, the relay policy and the genesis parameters. `Network.Ideal()` lists what the
proofs need of them: txids commit to everything but witnesses, header hashes to headers, pairings to their parts, no
header hashes to the zero hash, no txid is a pairing, no transaction spends its own outputs.
`Chainstate.WitnessesApart` says the same of wtxids, where witness commitments are concerned: a wtxid commits to a
whole transaction, and none is a pairing or the zero hash. The elliptic curve is any group whose generator has the
group's order. Amounts are integers between 0 and `MAX_MONEY`; other integers are unbounded, as in the source. Each
operation reads one clock value, and the clock only advances.

## Findings

- Validation applies a block's coinbase last and connection applies it first (netcoin/chain.py:862-866 and 674-688).
  The resulting coin sets are equal exactly when no transaction of the block spends an outpoint of the block's own
  coinbase (`Connect.OrdersAgreeExactly`). Nothing in validation rules that out when a coinbase repeats the txid of an
  unspent one: `Connect.RepeatedCoinbaseDiffers` gives such valid blocks. The kept set is then still contained in the
  validated one, so the kept set never makes an invalid spend valid.
- The candidate pool is laid over the active chain by hash (netcoin/chain.py:1352), and blocks off the tip are pooled
  on their proof of work alone. A pooled block with the header of an active block and another body, which the Merkle
  root allows when an odd body's last transaction is repeated, hides the active block from the search: a valid,
  strictly heavier fork through it is then not adopted, though the node holds all of its blocks
  (`Reorg.HiddenBlockLosesFork`). A run of arrivals leads there: the repeated body while the chain still ends below
  its parent, then the chain, then the fork (`HiddenFork.DeliverHiddenFork`). The search does leave no heavier valid
  chain of held blocks if and only if no valid chain through a hidden block is heavier (`Reorg.HeaviestHeldExactly`),
  in particular whenever pool and chain agree on every hash they share; connecting a block keeps that agreement
  exactly when the pool does not hide the block itself (`Reorg.AppendKeepsAgreementExactly`), pooling a block always
  keeps it (`Node.PoolingKeepsAgreementExactly`), and a switch restores it (`Node.Blockchain.MaybeReorg`).
- The weight budget of a mined block starts at the whole block limit and reserves nothing for header, count and
  coinbase (netcoin/chain.py:1242-1257 with netcoin/serialization.py:115-146). An assembled block is within the limit
  exactly when the room that the selection left holds those (`Node.CandidateWeighs`), and validates exactly when,
  besides, it meets its checkpoint and the median rule and pays something (`Node.CandidateValidatesExactly`). A
  mempool that rolls and fills the limit up to less than a header is selected whole, and nothing assembled over it
  validates (`Node.FullMempoolStopsMining`); mining then fails whatever the coinbase nonce
  (`Node.Blockchain.MineBlock`).
- A retarget raises, so that no block can follow, exactly when the scaled target rounds down to zero
  (`CompactTarget.RetargetRaisesExactly`); it cannot from a target of 4 or more.
- Without the median rule the median time past can drop (`MedianTime.MedianCanDecreaseWithoutRule`): a block lowers it
  exactly when it is earlier than the median and so are already half of the other blocks in the window
  (`MedianTime.MedianDropsExactly`).
- The comment on `_tx_by_shortid` says that a short-id collision counts as missing (netcoin/compact.py:73-74). Two
  colliding transactions do cancel; a third one puts the id back. An id answers exactly when an odd number of
  transactions carry it (`CompactBlocks.TableAnswersOddIds`, `CompactBlocks.ThirdCollisionAnswers`).
- The explorer's balance of an address exceeds the node's exactly when some transaction created again an outpoint that
  was an unspent coin of that address (`AddressEvents.ExplorerAgreesExactly`). A block of one coinbase that repeats an
  unspent one does that (`AddressEvents.RepeatedCoinbaseBreaksBalance`).
- Rolling the explorer index back differs from rebuilding it exactly when a txid above the height also occurs at or
  below it and is not in the mempool: the later row replaced the earlier one (`Indexer.RollbackIsRebuildExactly`,
  `Indexer.RepeatedTxidBreaksRollback`).
- A token bucket whose clock steps back earns the same seconds twice (`Bandwidth.SteppingBackEarnsTwice`): a reading
  in between earns extra exactly when the clock moved both ways and the bucket is not full anyway
  (`Bandwidth.StepBackEarnsExtraExactly`). The default clock is monotonic (netcoin/bandwidth.py:63), so this takes a
  clock passed in by the caller.

## Model

| member | source | states |
|---|---|---|
| Node.Blockchain.constructor | netcoin/chain.py:149-200 | A node that starts from genesis has a valid chain, indexes that equal its replay, and a mempool that rolls |
| Node.Blockchain.ApplyBlockToUtxos | netcoin/chain.py:645-672 | Connecting in place, coin by coin, gives the coins of connecting the block in one step, and the address index stays an exact partition of them |
| Node.Blockchain.IndexBlock | netcoin/chain.py:202-260 | Records the block under its hash, and moves the registry and the lookup tables by the block; Usernames.NamesAreClaimedExactly, ClaimRegisters, HandoverMoves and ClaimStands say what that does to names, Lookups.PlacesAreLast and TouchedExactly what it does to the tables |
| Node.Blockchain.Reindex | netcoin/chain.py:292-298 | Rebuilding leaves every derived structure equal to a replay of the chain |
| Node.Blockchain.PurgeInvalidMempool | netcoin/chain.py:1115-1128 | Whatever the mempool held, afterwards each transaction is valid after those before it and meets the relay rules; a mempool of which that was true already stays as it is |
| Node.Blockchain.AdmitTransaction | netcoin/chain.py:938-989 | A transaction enters only with a new txid and only when it and all that the relay policy left replay in order; otherwise nothing is added |
| Node.Blockchain.RememberOrphan | netcoin/chain.py:1318-1325 | The block joins the pool; beyond the cap the blocks that were inserted first leave; pool and insertion order are stated exactly |
| Node.Blockchain.Tick | netcoin/chain.py:869-889 | Time passing keeps the chain valid and its work |
| Node.Blockchain.ConnectTip | netcoin/chain.py:645-672 | A block valid on the incrementally kept coins extends a chain that passes validation from scratch, with all indexes in step |
| Node.Blockchain.ExtendTip | netcoin/chain.py:1287-1316 | After a new tip the mempool is the old one without the confirmed transactions, purged, and it rolls; work grew |
| Node.Blockchain.SwitchTo | netcoin/chain.py:1375-1400 | After a reorganisation every index equals a replay of the new chain, no known hash is forgotten, disconnected blocks are candidates, their transactions were offered back, and the mempool rolls |
| Node.Blockchain.MaybeReorg | netcoin/chain.py:1346-1373 | Afterwards no valid chain of blocks in the overlaid hash map has more work than the active one, and none of all held blocks when pool and chain agree on shared hashes; it switches if and only if the active chain was not the heaviest, to a strictly heavier chain of known blocks that nothing hides any more, and otherwise changes nothing; a rival last block with the same or a higher target never displaces the active one |
| Node.Blockchain.AddBlock | netcoin/chain.py:1287-1316 | A tip extension is connected exactly when it is valid; any other worked block is pooled, a full pool dropping its oldest; the chain then switches exactly when it is not the heaviest of the overlaid map, and chain, pool and order afterwards are stated either way; pool and chain stop agreeing only when a block connects that the pool hides; refusal changes nothing; the tip changes only for more work |
| Node.Blockchain.ReplaceChain | netcoin/chain.py:1403-1415 | Adopts the offered chain exactly when it is valid and strictly heavier, never for a last block with the same or a higher target, leaving the candidate pool alone |
| Node.Blockchain.MineBlock | netcoin/chain.py:1229-1284 | A mined block is an assembled one whose coinbase fits the room left: the selected transactions, a coinbase that pays the miner and nobody else, exactly subsidy plus their fees, the clock's time, the expected bits and proof of work; it extends the chain, and the coinbase's coins at the miner's address are among the node's coins unless the block spends them. When no nonce's coinbase fits, mining fails; it gives up only when every coinbase nonce gave an invalid block, and failure changes nothing |
| Node.Blockchain.BlockTemplate | netcoin/chain.py:1589-1626 | Refuses an invalid miner address; otherwise names the tip, the next height and bits, every transaction one pass keeps with the fee it pays after those before it, the subsidy, and subsidy plus fees |
| Node.Blockchain.BalancesForAddress | netcoin/chain.py:718-731 | Refuses an invalid address; otherwise one bucket gives the total and immature value of a full scan of the replayed coins, and the rest is spendable |
| Node.Blockchain.UtxoSet | netcoin/chain.py:691-699 | The confirmed coins are the replay; with the mempool it fails exactly when the mempool does not roll |
| Node.Blockchain.GetTransaction | netcoin/chain.py:1420-1437 | A confirmed txid gives its last confirmed transaction and block; otherwise the first mempool transaction with the id, then the first confirmed one with the wtxid; nothing exactly when there is none |
| Node.CandidateValidatesExactly | netcoin/chain.py:1229-1284 | An assembled block validates if and only if it meets its checkpoint and the median rule, pays something, and header, count and coinbase fit the room the selection left |
| Node.CandidateWeighs | netcoin/serialization.py:125-146 | An assembled block is within the weight limit if and only if header, count and coinbase weigh at most the room left |
| Node.OverfullCandidateFails | netcoin/chain.py:1258-1275 | With less room than that no assembled block validates, whatever the coins |
| Node.FullMempoolStopsMining | netcoin/chain.py:1242-1275 | A mempool that rolls and leaves less than a header of the limit is selected whole, no coinbase fits, and nothing assembled over it validates |
| Node.MinedBitsAreEasiest | netcoin/chain.py:1229-1237 | The bits a miner takes are accepted, and no other accepted bits have a higher target |
| Node.CandidatePays | netcoin/chain.py:1258-1275 | The coins of an assembled block's coinbase all belong to the miner and are worth exactly subsidy plus fees |
| Node.MinedCoinsStay | netcoin/chain.py:645-672 | Connecting a valid block leaves its coinbase's coins in place unless the block itself spends one of them |
| Node.PoolingKeepsAgreementExactly | netcoin/chain.py:1318-1325 | After pooling a block that is not on the chain, pool and chain agree if and only if the pool keeps no block that hid one before; agreement is never lost |
| Node.SwitchKeepsKnown | netcoin/chain.py:1375-1400 | Swapping the active chain with the pool loses no known block hash |
| Returns.EntersExactly | netcoin/chain.py:938-989 | A transaction enters the mempool if and only if it is no coinbase, its txid is new, the relay policy is willing, everything the policy leaves replays, and on those coins it is valid and meets the relay rules |
| Returns.ReorgReturnsTransactions | netcoin/chain.py:1375-1400 | When two valid chains part after a block, the mempool and the disconnected transactions stand on the new chain, the policy lets them in and none is confirmed, the mempool after the switch is all of them, in order |
| Returns.TailIsDisconnected | netcoin/chain.py:1375-1386 | Switching between valid chains that part after a block disconnects exactly the old chain's blocks above it, in order |
| Returns.SwitchedMempool | netcoin/chain.py:1375-1400 | After any switch the mempool confirms nothing twice: no transaction of the new chain is left in it, and all of it stands |
| Returns.ExtendedMempool | netcoin/chain.py:1287-1316 | After a new tip none of the block's transactions is left in the mempool, and all of it stands |
| Rules.TransactionValidExactly | netcoin/chain.py:745-775 | A transaction is accepted if and only if it is no coinbase, pays something within MAX_MONEY, repeats no input, is final, and each input spends a present coin with an accepted signature, a coinbase's only 100 blocks later, worth at least the outputs; the fee is the difference |
| Rules.ChainSpendsMatureCoins | netcoin/chain.py:764-766 | No input of a valid chain spends an output of a coinbase less than 100 blocks above it; every input spends an output that an earlier transaction made |
| Rules.ValidatedCoinsAreMade | netcoin/chain.py:777-812 | Every coin of a valid chain is an output of one of its transactions, dated with its block, and marked a coinbase's exactly when that transaction leads the block |
| Rules.ExpectedBitsBetween | netcoin/chain.py:592-601 | Between retargets a block keeps its parent's bits |
| Rules.ExpectedBitsAtRetarget | netcoin/chain.py:601-613 | At a retarget the new target is the old one scaled by the time from the first to the last block of the window, counted within a factor of four |
| Rules.HeaderValidExactly | netcoin/chain.py:814-846 | A header is accepted if and only if height, parent, checkpoint, median time, future limit, bits, proof of work, Merkle root, witness commitment, weight and the coinbase's place are right |
| Rules.BlockValidExactly | netcoin/chain.py:814-867 | A block is accepted if and only if its header is, its transactions validate in turn, no txid repeats, and its coinbase pays something, at most subsidy plus fees |
| Rules.ChainValidExactly | netcoin/chain.py:869-889 | A chain is accepted if and only if it starts with a good genesis block and each later block keeps every rule on the coins of those before it |
| Rules.OverheadIsSerialized | netcoin/serialization.py:115-146 | Besides its transactions a block weighs four times the bytes of its header and of its serialized count |
| Connect.BlockIsMonotone | netcoin/chain.py:814-889 | A block valid on some coins at some time is valid on more coins at any later time, with the same outcome on the same coins |
| Connect.ChainStaysValid | netcoin/chain.py:869-889 | A valid chain stays valid, with the same coins, as time passes |
| Connect.ConnectIsWithinValidated | netcoin/chain.py:674-688 | Connecting a block never makes a coin that validating it does not also have |
| Connect.OrdersAgreeExactly | netcoin/chain.py:854-866 | Coinbase-first and coinbase-last give the same coins if and only if no transaction spends an outpoint of the block's own coinbase |
| Connect.FreshCoinbaseIsNotSpent | netcoin/chain.py:854-866 | With a coinbase txid that no coin carries, that condition holds for every valid block |
| Connect.RepeatedCoinbaseDiffers | netcoin/chain.py:814-867 | On any chain and coins, a block whose coinbase repeats the txid of a mature coin that the block also spends is valid, and the two orders disagree about that coin |
| Connect.SingleCoinbaseValidates | netcoin/chain.py:814-867 | A block of a coinbase alone is valid once its header is and it pays something, up to the subsidy, whatever its txid |
| Chainstate.ValidChainShape | netcoin/chain.py:814-889 | A valid chain starts at genesis, is numbered and linked throughout, and every header meets its target |
| Chainstate.GenesisIsSingle | netcoin/chain.py:1710-1735 | A valid chain opens with the genesis coinbase and nothing else |
| Chainstate.ReplayIsWithinValidated | netcoin/chain.py:629-635 | The full replay of a valid chain is contained in the coins validation threads through, and equal when no block spends its own coinbase |
| Chainstate.AppendKeepsValid | netcoin/chain.py:1287-1316 | Validating one block on the kept coins is enough: the longer chain passes validation from genesis |
| Chainstate.HeaderCommitsToBody | netcoin/chain.py:832-833 | Blocks with one hash, matching Merkle roots and no repeated txid have the same transactions, witnesses aside |
| Chainstate.ValidBlockIsCommitted | netcoin/chain.py:832-865 | Every valid block has the committed root and repeats no txid, its coinbase's included |
| Chainstate.ValidBlockCommitsToWitnesses | netcoin/block.py:155-215 | The coinbase of a valid block that carries a witness commits to the Merkle root of its wtxids |
| Chainstate.HeaderCommitsToWitnessRoot | netcoin/block.py:155-215 | Two valid blocks with one hash that carry a witness have the same witness root |
| Chainstate.HeaderCommitsToWitnesses | netcoin/block.py:155-215 | Such blocks have the same transactions after the coinbase, witnesses included |
| Chainstate.MedianNeverGoesBack | netcoin/consensus.py:109-118 | Once the rule is active, the median time past of a valid chain never decreases |
| Supply.RegularConserves | netcoin/chain.py:745-789 | A regular transaction moves value: inputs equal outputs plus fee, up to coins that a repeated txid overwrites |
| Supply.TxsConserve | netcoin/chain.py:847-862 | Over a block's transactions, coins after plus fees plus overwritten coins are exactly the coins before |
| Supply.BlockConserves | netcoin/chain.py:814-867 | For every valid block, coins after plus fees plus overwritten coins are exactly coins before plus the coinbase outputs |
| Supply.ChainConserves | netcoin/chain.py:869-889 | For every valid chain, coins plus fees plus overwritten coins are exactly all coinbase outputs |
| Supply.ChainBalancesExactly | netcoin/chain.py:869-889 | The coins of a valid chain are worth the coinbase outputs minus the fees if and only if no transaction overwrote an unspent coin |
| Supply.BlockMintsAtMostSubsidy | netcoin/chain.py:814-867 | A valid block adds at most its subsidy to all money |
| Supply.FreshBlockBalances | netcoin/chain.py:814-867 | With fresh txids, coins before plus the coinbase equal coins after plus fees |
| Supply.FreshChainBalances | netcoin/chain.py:869-889 | Over a fresh valid chain all coins are worth the coinbase outputs minus the fees |
| Supply.FreshChainReplaysValidated | netcoin/chain.py:629-635 | On a fresh valid chain the full replay is exactly the validated set |
| Supply.ChainMintsAtMostSchedule | netcoin/chain.py:577-590 | All coins of a valid chain are worth at most the genesis allocation plus the scheduled subsidies |
| Supply.SupplyIsCapped | netcoin/emission.py:82-95 | All coins of a valid chain are worth at most the allocation plus the cap, which from an empty genesis is within MAX_MONEY |
| Checks.ValidateRegularTransaction | netcoin/chain.py:745-775 | The in-place check returns the specified fee or first error; Rules.TransactionValidExactly says when that is a fee, and which |
| Checks.ValidateTransactions | netcoin/chain.py:847-862 | The loop over a block's transactions threads the specified coins, fees and txids, or stops at the first error |
| Checks.ValidateBlockAgainst | netcoin/chain.py:814-867 | Validating a block gives the specified coins or first error; Rules.BlockValidExactly and Chainstate.ValidBlockCommitsToWitnesses say what an accepted block meets |
| Checks.AssertValidChain | netcoin/chain.py:869-889 | Validating a whole chain gives the specified coins or first error; Rules.ChainValidExactly says which chains pass |
| Checks.RecomputeUtxos | netcoin/chain.py:629-635 | The full scan is the replay |
| Checks.KeepTransactions | netcoin/chain.py:1115-1128 | The shared loop of purge, mining and template keeps exactly the specified transactions |
| Standards.TurnDecides | netcoin/chain.py:1115-1128 | A transaction stays at its turn if and only if it is valid on the coins kept so far and, in a purge, meets the relay rules: at most a thousand inputs, a million of weight, no dust, and a satoshi of fee for every four of weight; or, in mining, fits the room left |
| Standards.PurgeKeepsAllExactly | netcoin/chain.py:913-928 | A purge drops nothing if and only if every transaction is valid after those before it and meets the relay rules |
| Standards.PurgedMempoolStands | netcoin/chain.py:1115-1128 | Whatever a purge leaves is such a mempool |
| Checks.ListTemplate | netcoin/chain.py:1597-1617 | The template's loop keeps the specified transactions, each entry with the fee the transaction pays after those before it |
| Checks.RollMempool | netcoin/chain.py:691-699 | Rolling the mempool gives the specified coins or first error |
| UtxoIndex.BucketIsScan | netcoin/chain.py:702-731 | Looking up one bucket equals scanning the whole set, for every address |
| UtxoIndex.BucketsPartition | netcoin/chain.py:637-643 | Buckets are disjoint, never empty, and together hold exactly the set |
| UtxoIndex.RemoveKeepsIndex | netcoin/chain.py:649-661 | Popping a coin from its bucket, dropping an emptied bucket, is indexing the smaller set |
| UtxoIndex.InsertKeepsIndex | netcoin/chain.py:662-672 | Filing a coin is indexing the larger set, when a coin it overwrites pays the same address |
| UtxoIndex.SourceDeterminesOutput | netcoin/chain.py:662-672 | An overwritten coin always pays the same address: one outpoint has one output |
| UtxoIndex.SumBucket | netcoin/chain.py:718-731 | One pass over a bucket gives its total and immature value, and the rest is spendable |
| UtxoIndex.ImmatureIsUnspendable | netcoin/chain.py:718-731 | A coin is counted as immature if and only if spending it now is refused as an immature coinbase's |
| Usernames.ClaimStands | netcoin/chain.py:202-260 | No transaction removes a name, and one changes a claimed name only by handing it over with a coin of its owner |
| Usernames.ClaimStandsAlongChain | netcoin/chain.py:202-269 | Along any extension a name never disappears and its record stands unless some transaction hands it over |
| Usernames.ReplayedOwnersMatch | netcoin/chain.py:202-260 | After replaying any chain the registry's owner of every unspent coin is the address the coin pays |
| Usernames.TaggedNameExactly | netcoin/chain.py:101-118 | A transaction carries a name under a tag if and only if its first output without an address has the tag, followed by a text that normalizes to that name and is a name |
| Usernames.ClaimRegisters | netcoin/chain.py:232-242 | Claiming an unclaimed name records it, with the address of the first addressed output and the transaction's id, height, block and time |
| Usernames.HandoverMoves | netcoin/chain.py:243-260 | Handing a name over records it for the first addressed output's address, with the owner before |
| Usernames.NamesAreClaimedExactly | netcoin/chain.py:202-269 | A name is in the registry of a chain if and only if some transaction of the chain after a coinbase claimed it with an addressed output |
| Handovers.HandoverSpendsOwnersCoin | netcoin/chain.py:202-260 | On a valid chain every handover of a name spends a validated coin that pays the name's owner, with an accepted signature |
| Handovers.NamesMoveOnlyByOwners | netcoin/chain.py:202-269 | Along any extension of a valid chain a name's record changes only at such a spend |
| Lookups.PlacesAreConfirmed | netcoin/chain.py:202-210 | The transaction table holds exactly the confirmed txids |
| Lookups.PlacesAreLast | netcoin/chain.py:202-210 | It gives each txid the block and position of its last transaction |
| Lookups.TouchedExactly | netcoin/chain.py:211-225 | An address lists exactly the txids of transactions that pay it or spend a coin recorded as its own |
| Lookups.SpendingTouches | netcoin/chain.py:211-225 | Spending a connected coin always lists the transaction under the address the coin pays |
| Lookups.PayingTouches | netcoin/chain.py:211-225 | Paying an address always lists the transaction under it |
| Usernames.TagsAreDisjoint | netcoin/chain.py:101-118 | No script is both a claim and a transfer |
| ForkChoice.BuildBranch | netcoin/chain.py:1327-1344 | Walking parent links ends, cycles included, with the parent-linked branch of the tip, or with nothing exactly when there is none |
| ForkChoice.CumulativeWork | netcoin/block.py:300-306 | The loop sums the work of every block, each the quotient of CompactTarget.WorkIsQuotient |
| ForkChoice.BranchIsUnique | netcoin/chain.py:1327-1344 | A tip has at most one branch |
| ForkChoice.ValidChainIsBranch | netcoin/chain.py:1327-1344 | Every valid chain of known blocks is the branch of its tip, so the search misses none |
| ForkChoice.SameTipSameWork | netcoin/block.py:300-306 | Valid chains with one tip hash have the same work |
| ForkChoice.WorkAppend | netcoin/block.py:300-306 | One more block adds exactly its work, which is positive |
| ForkChoice.EasierBlockIsLighter | netcoin/block.py:300-306 | Of two last blocks on one chain the one with the lower target never gives less work |
| ForkChoice.HeavierRivalIsHarder | netcoin/chain.py:1346-1373 | A chain that differs only in its last block and has more work has a strictly lower target there |
| ForkChoice.UniformWork | netcoin/block.py:300-306 | Over blocks with the same bits work is their number times the work of one |
| Reorg.BestChain | netcoin/chain.py:1346-1373 | The search returns a valid chain that no valid branch of known blocks beats, the active one unless beaten strictly |
| Reorg.AllConsideredIsHeaviest | netcoin/chain.py:1346-1373 | Looking once at every known tip is enough for that |
| Reorg.OverlayHidesExactly | netcoin/chain.py:1346-1356 | The hash map stands for every known block if and only if pool and chain agree wherever both have a hash |
| Reorg.ConsideredUnlessHidden | netcoin/chain.py:1346-1373 | The search considers a chain of held blocks if and only if the pool hides none of them |
| Reorg.HeaviestHeldExactly | netcoin/chain.py:1346-1373 | Optimality over the hash map is optimality over everything held if and only if no valid chain through a hidden block is heavier; agreement of pool and chain suffices |
| Reorg.AppendKeepsAgreementExactly | netcoin/chain.py:1287-1316 | A connected block keeps that agreement if and only if the pool does not hide it |
| Reorg.HiddenBlockLosesFork | netcoin/chain.py:1287-1356 | A valid chain, a valid heavier fork through one of its blocks, and a pool of the fork's blocks and of that block with its last transaction repeated: every pooled block has its proof of work, the repeated body has the header's Merkle root, and the search finds nothing heavier |
| Reorg.NothingBeatsChain | netcoin/chain.py:1346-1373 | With a hidden block, known blocks beyond it offer nothing heavier than the active chain, before the chain reaches the block and after |
| HiddenFork.ForkStaysApart | netcoin/chain.py:1287-1316 | Chains that parted after a block share no later hash |
| HiddenFork.DeliverHiddenFork | netcoin/chain.py:1287-1356 | From a node below the block, with nothing pooled: the repeated body, then the chain, then the fork, each block offered once, leave the node on the chain holding every block of the fork, which it does not adopt though it may be heavier |
| Mempool.KeepIsIdempotent | netcoin/chain.py:1115-1128 | A second pass over what a pass kept keeps all of it |
| Mempool.KeptRolls | netcoin/chain.py:1115-1128 | What a pass keeps always replays in order without error |
| Mempool.RoomIsWhatIsLeft | netcoin/chain.py:1242-1257 | The weight of the selection and the room left are always exactly the block limit, and in mining the room is never negative |
| Mempool.WholePoolIsSelected | netcoin/chain.py:1242-1257 | A mempool that rolls and is within the limit is selected whole |
| Mempool.KeptIdsAreDistinct | netcoin/chain.py:1238-1257 | Kept transactions are mempool transactions with distinct txids, none a coinbase |
| Mempool.FeesComeFromCoins | netcoin/chain.py:1238-1257 | Collected fees and remaining coins are together within the coins there were |
| Mempool.SelectionValidates | netcoin/chain.py:1238-1257 | A selection passes the transaction checks of block validation with the same coins and fees |
| Mempool.AssembledBlockPassesTransactionChecks | netcoin/chain.py:1597-1626 | Selected transactions always pass those checks on a valid chain, and a coinbase of subsidy plus fees is accepted if and only if that is positive |
| Mempool.EmptyGenesisAssembles | netcoin/chain.py:1597-1626 | From a genesis that allocates nothing this needs no assumption on amounts |
| Mempool.NextRewardFits | netcoin/chain.py:1238-1257 | All coins plus the next subsidy stay within MAX_MONEY |
| Mining.MineHeader | netcoin/block.py:273-281 | Returns the first nonce that meets the target, or nothing exactly when none does |
| Mining.CoinbasePaysMiner | netcoin/tx.py:530-550 | Every output of a coinbase that pays anything pays the miner |
| Emission.EmissionSubsidy | netcoin/emission.py:68-79 | The reduction loop gives the scheduled subsidy |
| Emission.ScheduleInFigures | netcoin/emission.py:68-79 | The schedule starts at fifty coins, and every 265000 blocks drops to nine tenths, rounded down |
| Emission.TotalEmissionCapSats | netcoin/emission.py:82-95 | The loop sums the whole remaining schedule |
| Emission.CapIsWithinMaxMoney | netcoin/params.py:16-45 | The cap is at most MAX_MONEY |
| Emission.CapIsAtMostTenEpochs | netcoin/emission.py:82-95 | From any reward the schedule mints at most ten epochs' worth of it |
| Emission.SumPlusRemainderIsCap | netcoin/emission.py:82-95 | Minted so far plus what remains is exactly the cap, at every height |
| Emission.ScheduledSumIsWithinCap | netcoin/emission.py:68-95 | No number of blocks mints more than the cap |
| Emission.LegacyCutHistory | netcoin/emission.py:139-170 | The legacy loop gives the specified year-by-year cuts |
| Emission.LegacySampledEvenCount | netcoin/emission.py:147-156 | The sampling loop counts the even hashes among the year's draws |
| Emission.LegacyCutForYear | netcoin/emission.py:159-163 | A year is cut when enough sampled hashes are even, or after the dry years |
| Emission.EvenCountExactly | netcoin/emission.py:147-156 | The count is the number of draws that look at an even hash |
| Emission.HistoryExactly | netcoin/emission.py:139-170 | A year is cut if and only if at least 40 of its 100 draws are even or the three years before it were not cut |
| Emission.FourYearsHaveACut | netcoin/emission.py:159-170 | So of four years running one is cut |
| Emission.SettledYearExactly | netcoin/emission.py:173-191 | A year counts from ten blocks after its start on |
| Emission.WindowPays | netcoin/emission.py:173-191 | Within the window the subsidy is fifteen coins, reduced once for every settled year that was cut |
| Emission.SubsidyOutsideWindow | netcoin/chain.py:577-590 | Before the window it is fifty coins, after it the schedule's |
| Emission.SubsidyReadsOnlyEarlierHashes | netcoin/emission.py:139-191 | Chains that agree below a height pay the same there: the legacy subsidy reads only earlier hashes |
| Emission.SubsidyIsAtMostScheduled | netcoin/chain.py:577-590 | At every height, legacy window included, the subsidy is at most the public schedule's |
| CompactTarget.TargetRoundTrip | netcoin/block.py:218-261 | Decoding an encoded target never raises, never exceeds the target or the limit, loses less than one part in 2^15, and re-encodes to the same bits |
| CompactTarget.DecodesExactly | netcoin/block.py:218-241 | Bits decode if and only if the sign bit is clear and the mantissa, shifted by the exponent's bytes, is positive and within the limit; that is the target |
| CompactTarget.RetargetIsBounded | netcoin/chain.py:592-613 | From a target of at least 4 a retarget never raises and stays within a factor of four up to that rounding, whatever the timestamps |
| CompactTarget.RetargetRaisesExactly | netcoin/chain.py:592-613 | A retarget raises if and only if old target times clamped span is below the target span |
| CompactTarget.RetargetCanRaise | netcoin/chain.py:592-613 | Concrete bits and timestamps for which it raises |
| CompactTarget.RetargetScalesExactly | netcoin/chain.py:592-613 | When it does not raise, the new target is old target times counted span over the target span, within the limit, rounded down by the encoding alone |
| CompactTarget.WorkIsPositive | netcoin/block.py:300-306 | Every acceptable target leaves positive work |
| CompactTarget.WorkIsQuotient | netcoin/block.py:300-306 | Work times target plus one is at most 2^256, and one more unit of work is not |
| CompactTarget.LowerTargetIsMoreWork | netcoin/block.py:300-306 | A lower target never has less work |
| CompactTarget.PowLimitDecodes | netcoin/block.py:236-241 | The proof-of-work limit is the decoding of its compact form |
| MedianTime.ComputeMedianTimePast | netcoin/consensus.py:97-106 | Sorting the last eleven timestamps and taking the middle gives the median |
| MedianTime.MedianByCounting | netcoin/consensus.py:97-106 | The median reaches a bound if and only if at most half of the window lies below the bound |
| MedianTime.MedianNeverDecreases | netcoin/consensus.py:97-118 | A block later than the median never lowers it, while the window fills and after |
| MedianTime.MedianDropsExactly | netcoin/consensus.py:97-106 | One more block lowers the median if and only if it is earlier than the median and so are half of the window's other blocks |
| MedianTime.MedianIsMonotone | netcoin/consensus.py:109-118 | So it is monotone along any chain that keeps the rule |
| MedianTime.MedianCanDecreaseWithoutRule | netcoin/consensus.py:97-106 | Without the rule it can drop |
| Merkle.MerkleRoot | netcoin/block.py:121-133 | The layer loop computes the specified root |
| Merkle.RootOfFew | netcoin/block.py:121-133 | The root of one hash is the hash, of two their pairing, of three pairs the last with itself, of four pairs the two pairings |
| Merkle.RootCommits | netcoin/block.py:121-133 | Two lists without repeats and with the same root are the same list |
| Merkle.LayerIsDetermined | netcoin/block.py:121-133 | A layer without repeats is determined by the next one despite odd duplication |
| Merkle.DuplicatedTailKeepsRoot | netcoin/block.py:121-133 | Repeating the last leaf of an odd list keeps the root, so repeats must be rejected |
| Liabilities.LiabilityTree.constructor | netcoin/exchange_reserves.py:44-62 | The tree's levels are those of the sorted leaves up to the root |
| Liabilities.LiabilityTree.ProofForCustomer | netcoin/exchange_reserves.py:72-93 | Every listed customer gets a proof of a leaf of theirs, and it verifies; a missing customer gets none |
| Liabilities.VerifyLiabilityProof | netcoin/exchange_reserves.py:104-116 | The verifier's loop accepts exactly the proofs that fold to the root |
| Liabilities.FoldSides | netcoin/exchange_reserves.py:104-116 | A sibling on the left is hashed before the running hash, one on the right after it |
| Liabilities.VerifiedLeafIsInTree | netcoin/exchange_reserves.py:104-116 | A proof of any length that verifies names a leaf of the tree |
| Liabilities.RootCertifiesExactly | netcoin/exchange_reserves.py:44-116 | A leaf is in the tree if and only if some proof of it verifies against the root |
| Liabilities.SortKeepsMembers | netcoin/exchange_reserves.py:45-50 | Sorting loses and adds no leaf |
| Liabilities.SortOrders | netcoin/exchange_reserves.py:45-50 | The leaves are in the order of their customers' names |
| BitStrings.ConvertBits | netcoin/crypto.py:172-191 | The accumulator loop regroups the bit string, with the source's padding and range errors |
| BitStrings.RegroupRoundTrip | netcoin/crypto.py:172-191 | Bytes to five-bit symbols and back is the identity |
| Bech32.ComputePolymod | netcoin/crypto.py:118-127 | The loop computes the checksum register |
| Bech32.RunIsLinear | netcoin/crypto.py:118-127 | The register is XOR-linear in state and input |
| Bech32.ChecksumVerifies | netcoin/crypto.py:130-143 | A created checksum always verifies under its constant |
| Bech32.SubstitutionChangesPolymod | netcoin/crypto.py:118-127 | Replacing one symbol always changes the register |
| Bech32.ConstantsAreApart | netcoin/crypto.py:118-143 | With as many symbols after it as a 20 or 32 byte program leaves, replacing a symbol never turns one checksum constant into the other |
| WitnessAddress.DecodeOfEncode | netcoin/crypto.py:146-169 | Encoded text decodes to its parts if and only if it fits in 90 characters |
| WitnessAddress.DecodesExactly | netcoin/crypto.py:151-169 | Text decodes if and only if it is printable, not in both cases, at most 90 characters, and has a separator with a prefix before it and a checksummed run of the alphabet after it; it decodes to those parts |
| WitnessAddress.WitnessRoundTrip | netcoin/crypto.py:194-225 | Every allowed version and program round-trips under every prefix that leaves room |
| WitnessAddress.NetAddressRoundTrip | netcoin/crypto.py:194-225 | The network's own prefix always leaves room |
| WitnessAddress.WitnessesExactly | netcoin/crypto.py:194-204 | A version and a program have an address if and only if the version is at most 16 and the program has 2 to 40 bytes, of version 0 exactly 20 or 32 |
| WitnessAddress.DecodedIsWitness | netcoin/crypto.py:207-225 | Whatever decodes is such a pair, and has the Bech32 checksum if and only if its version is 0 |
| WitnessAddress.KnownTextsVerify | netcoin/crypto.py:118-143 | The shortest valid texts of BIP 173 and BIP 350 verify, each under its own constant |
| WitnessAddress.SubstitutionIsDetected | netcoin/crypto.py:137-169 | Replacing one character after the separator of a valid text by another never verifies under the same constant |
| WitnessAddress.AddressSubstitutionIsDetected | netcoin/crypto.py:146-225 | Replacing any one character of a witness address, in the prefix, the separator, the version, the program or the checksum, by a different one is always detected |
| BlockFilter.BitWriter.WriteUnary | netcoin/blockfilter.py:56-58 | Appends the unary code |
| BlockFilter.BitWriter.WriteBits | netcoin/blockfilter.py:60-62 | Appends the low bits, highest first |
| BlockFilter.DeltaInBits | netcoin/blockfilter.py:56-73 | A distance is as many ones as its quotient, a zero, and nineteen bits of remainder, the highest first |
| BlockFilter.BitWriter.ToBytes | netcoin/blockfilter.py:64-73 | Packs the bits |
| BlockFilter.PackPadsWithZeros | netcoin/blockfilter.py:64-73 | Packed bytes spell the bits again, then fewer than eight zeros |
| BlockFilter.BitReader.ReadUnary | netcoin/blockfilter.py:89-93 | Reads a unary code, with zeros past the end |
| BlockFilter.BitReader.ReadBits | netcoin/blockfilter.py:95-99 | Reads a number, with zeros past the end |
| BlockFilter.VarintRoundTrip | netcoin/blockfilter.py:31-49 | Every 64-bit length round-trips, whatever follows it |
| BlockFilter.VarintInBytes | netcoin/blockfilter.py:31-49 | Known lengths in bytes: the mark of the width, then the low byte first |
| BlockFilter.SearchFindsExactly | netcoin/blockfilter.py:129-144 | Searching coded ascending values finds exactly those values, despite early exit and padding |
| BlockFilter.BuildFilter | netcoin/blockfilter.py:111-126 | The filter is the length and the code of the sorted hashes of the distinct elements, and it matches every one of them |
| BlockFilter.FilterMatch | netcoin/blockfilter.py:129-144 | The matching loop decides the specified search |
| BlockFilter.MatchIsHashMembership | netcoin/blockfilter.py:111-144 | A target matches if and only if its range hash is among the set's: no false negatives |
| BlockFilter.HashedExactly | netcoin/blockfilter.py:102-108 | A range hash is the remainder of the digest by the range |
| BlockFilter.BodyIsSmall | netcoin/blockfilter.py:111-126 | The coded body stays under 21.5 bits per element plus byte padding |
| CompactBlocks.MakeCompactBlock | netcoin/compact.py:57-66 | Short ids and prefilled transactions split the block by position |
| CompactBlocks.TxByShortId | netcoin/compact.py:69-79 | The loop builds the toggling table |
| CompactBlocks.TableAnswersOddIds | netcoin/compact.py:69-79 | A short id answers if and only if an odd number of transactions carry it, with the last of them |
| CompactBlocks.ThirdCollisionAnswers | netcoin/compact.py:69-79 | Two transactions with one short id cancel, and with a third the id answers again |
| CompactBlocks.ShortIdsSuffice | netcoin/compact.py:82-91 | The short ids run out if and only if a prefilled position lies outside the block |
| CompactBlocks.CompactBlockPositions | netcoin/compact.py:82-91 | Lists every open position with its short id, or fails when ids run out |
| CompactBlocks.MissingFrom | netcoin/compact.py:94-101 | Lists what the mempool's table does not answer |
| CompactBlocks.WantedExactly | netcoin/compact.py:94-101 | That list names exactly the unanswered open positions |
| CompactBlocks.Reconstruct | netcoin/compact.py:104-129 | The scan gives the specified block or error |
| CompactBlocks.SucceedsWhenNothingIsMissing | netcoin/compact.py:104-129 | Reconstruction succeeds if and only if the compact block is well formed, not empty, and nothing is missing |
| CompactBlocks.RelayRestoresExactly | netcoin/compact.py:57-129 | It gives back the announced block if and only if the table answers every open position with the right transaction |
| CompactBlocks.CompactMissingPayload | netcoin/compact.py:132-152 | The payload lists all but the first transaction whose ids the peer lacks |
| CompactBlocks.PayloadAnswers | netcoin/compact.py:132-152 | An answer names a transaction after the first by its position and short id, and every one whose short id the peer lacks is answered |
| CompactBlocks.PayloadCompletesExactly | netcoin/compact.py:57-152 | With the sender's payload the peer restores the block if and only if every later position is answered rightly: by the mempool for short ids it claimed or that an even number of the sender's transactions carry, by their last carrier otherwise |
| CompactBlocks.PayloadCompletesWithoutCollisions | netcoin/compact.py:57-152 | Without colliding short ids it is enough, and needed, that the mempool answers the ids the peer claimed with the right transactions |
| HdKeys.ScalarMult | netcoin/crypto.py:267-280 | Double-and-add computes the k-fold sum, for negative and zero factors too |
| HdKeys.NegativeFactor | netcoin/crypto.py:267-280 | A negative factor is its magnitude times the negated point |
| HdKeys.DerivePath | netcoin/hd.py:167-171 | The loop derives along the path, or stops at the first error |
| HdKeys.FirstStepFirst | netcoin/hd.py:167-171 | The first index of a path is derived first, and the rest of the path starts from its child |
| HdKeys.DeriveCommutes | netcoin/hd.py:117-165 | One unhardened step: public derivation of the neutered parent is the neutered private child, with the same error on the same indexes |
| HdKeys.DerivePathCommutes | netcoin/hd.py:117-171 | The same along every unhardened path |
| HdKeys.HardenedNeedsTheSecret | netcoin/hd.py:131-171 | A path with a hardened step never derives from a public node |
| HdKeys.ChildOfSecret | netcoin/hd.py:131-165 | A private child's secret is the parent's plus the left half of the hash, modulo the order, the hash being of the secret for hardened indexes and of the public key for others; depth, index, chain code and fingerprint are stated |
| HdKeys.ChildOfPoint | netcoin/hd.py:131-165 | A public child's point is the parent's plus that many times the generator, and is not the neutral point |
| HdKeys.HardenedHashesTheSecret | netcoin/hd.py:131-165 | A hardened step depends on the hash of secrets only |
| HdKeys.UnhardenedHashesThePoint | netcoin/hd.py:131-165 | An unhardened step depends on the hash of public keys only |
| Bandwidth.TokenBucket.constructor | netcoin/bandwidth.py:52-69 | A new limiter is full, with at least one token and a tenth of a second of capacity |
| Bandwidth.TokenBucket.Refill | netcoin/bandwidth.py:75-78 | Refilling changes no observable: the level at the clock's time is what it was |
| Bandwidth.TokenBucket.Consume | netcoin/bandwidth.py:80-111 | Ends having spent exactly the requested bytes, accounts every wait, throttles at most twice per byte, and earns no more than the time passed is worth |
| Bandwidth.RefillComposes | netcoin/bandwidth.py:75-78 | How often the clock is read does not matter |
| Bandwidth.WindowIsBounded | netcoin/bandwidth.py:75-111 | In any run, bytes sent within any window are at most capacity plus rate times its length |
| Bandwidth.SteppingBackEarnsTwice | netcoin/bandwidth.py:75-78 | A clock that steps back breaks that bound |
| Bandwidth.StepBackEarnsExtraExactly | netcoin/bandwidth.py:75-78 | A reading in between earns more than one over the summed time if and only if the clock moved both ways, the rate is positive and the bucket does not end full |
| MempoolGraph.AncestorCount | netcoin/mempool.py:86-99 | The recursive count is the size of the set of transitively spent pool transactions |
| MempoolGraph.StackAncestorCount | netcoin/chain.py:1085-1097 | The stack-based count is the size of the same set |
| MempoolGraph.DescendantCount | netcoin/mempool.py:102-116 | The fixpoint count is the size of the set of transitive spenders |
| MempoolGraph.AncestorsAndDescendantsAreConverse | netcoin/mempool.py:86-116 | One is an ancestor of the other if and only if the other is a descendant of it |
| MempoolGraph.TxidsFixInputs | netcoin/mempool.py:86-99 | Equal txids spend equal transactions, so a table by txid loses no edge |
| MempoolPackages.Packages | netcoin/chain.py:1169-1206 | Packages are exactly the connected components, disjoint and in order, and fees and sizes are conserved |
| MempoolPackages.EntryIsAdded | netcoin/chain.py:1195-1196 | Each transaction adds the fee and the size of its entry to a package, or nothing without one |
| MempoolPackages.ComponentsAreClasses | netcoin/chain.py:1169-1206 | Two components are equal or disjoint |
| MempoolPackages.LinkedWhenSpending | netcoin/chain.py:1174-1180 | Two pool transactions are linked if and only if one spends the other |
| AddressEvents.TxBalances | netcoin/indexer.py:43-108 | The events of a transaction account for every change at an address except overwritten coins |
| AddressEvents.EventsSumToCoins | netcoin/indexer.py:23-129 | The events of an address sum to its unspent coins plus every overwritten coin of it |
| AddressEvents.ExplorerAgreesExactly | netcoin/indexer.py:158-181 | On a valid chain the explorer's balance is the node's if and only if no unspent coin of the address was created again; it is never less |
| AddressEvents.RepeatedCoinbaseBreaksBalance | netcoin/indexer.py:158-181 | A valid block of one coinbase repeating an unspent coin's txid makes the explorer's balance of the coin's address exceed the node's |
| AddressEvents.FreshChainOverwritesNone | netcoin/indexer.py:23-129 | Chains with fresh txids meet that condition for every address |
| Indexer.IndexedFeeIsValidated | netcoin/indexer.py:69-84 | The indexed fee of a valid transaction is the fee validation computes |
| IndexRows.BlockRowsRead | netcoin/indexer.py:30-42 | Row i of the block table has the hash, parent, time, size and weight of block i |
| IndexRows.TxRowsRead | netcoin/indexer.py:43-84 | The transaction table holds exactly a row for the last transaction of each txid, with its block, height, position, time, value in, value out and fee |
| IndexRows.MempoolRowsRead | netcoin/indexer.py:131-153 | Renewing the mempool leaves exactly its own rows, without block or fee, and the confirmed rows whose txids it does not hold |
| IndexRows.EventsRead | netcoin/indexer.py:43-118 | The events are exactly the positive addressed outputs of the chain, and the addressed coins its inputs spend, with the negated amount, the outpoint and the coin's coinbase mark |
| Indexer.EventsRollBack | netcoin/indexer_storage.py:125-141 | Deleting events above a height leaves the events of the chain cut there |
| Indexer.TxTableRollsBack | netcoin/indexer_storage.py:125-141 | The transaction table rolls back to that of the cut chain without the txids that later blocks repeat |
| Indexer.RollbackIsRebuildExactly | netcoin/indexer_storage.py:125-141 | A rollback equals a rebuild from the cut chain if and only if no later txid repeats an earlier one outside the mempool; the other tables always do |
| Indexer.RepeatedTxidBreaksRollback | netcoin/indexer_storage.py:125-141 | Rolling back a block whose coinbase repeats an earlier txid is not a rebuild |
| Explorer.ChainIndexer.Rebuild | netcoin/indexer.py:23-129 | Rebuilding leaves exactly the chain's tables, whatever was there |
| Explorer.ChainIndexer.IndexMempool | netcoin/indexer.py:131-153 | Renews the unconfirmed rows |
| Explorer.ChainIndexer.RollbackToHeight | netcoin/indexer_storage.py:125-141 | Whenever the tables were a rebuild from some chain, afterwards they are the rebuild from that chain cut at the height if and only if no later txid repeats an earlier one outside the mempool |
| Explorer.ChainIndexer.AddressHistory | netcoin/indexer.py:158-181 | The newest events with running sums, and the sum of all events as balance |
| Explorer.HistoryEndsAtBalance | netcoin/indexer.py:158-181 | On a rebuilt index the history is in chain order and its last running balance is the balance |
| Explorer.ByHeightSorts | netcoin/indexer.py:158-181 | A history lists its events by height, and those of one height in the order they were recorded |
| Explorer.ProfileCounts | netcoin/indexer.py:209-247 | Each count of a profile is the number of the address's events of that kind, dust being a receive of 1 to 545 satoshi |
| Explorer.ProfileRanges | netcoin/indexer.py:209-247 | A profile's ranges hold the heights of all its events and their non-zero times, and are absent exactly when there are none |
| Explorer.ChainIndexer.AddressProfile | netcoin/indexer.py:209-247 | Every event is counted once as receive or send; received minus sent is the sum of all events; heights and non-zero timestamps range from their least to their greatest; dust and coinbase receives are counted |

## Left out

- Node.Blockchain.AdmitTransaction: expiry, size eviction, fee-based replacement and the ancestor limit are one abstract relay policy that names what to drop and whether it is willing; it does not see arrival times, so expiry by age is not an instance of it; package admission is not modelled.
- Node.Blockchain.constructor: a node starts from genesis; loading a stored chain and the JSON and SQLite backends are not modelled.
- HdKeys.DerivePath: takes the list of indexes; parsing path text, extended-key text and the mnemonic are not modelled.
- Bandwidth.TokenBucket.Consume: seconds and tokens are real numbers; the source's floating-point rounding is not modelled. It assumes a sleeper that waits at least as long as asked.
- Node.Blockchain.Reindex: the branch that keeps the coins of a pruned chain is not modelled.
- WitnessAddress.SubstitutionIsDetected: about Bech32 text in general, where only characters after the separator are replaced by others than it; for witness addresses see WitnessAddress.AddressSubstitutionIsDetected.
- Node.CandidateValidatesExactly: assumes that a witness commitment can be read back from the script that carries it, as script encoding is abstract.
- Scripts, signatures, transaction serialization and transaction weights: abstract functions of `Ledger.Network`. A block's weight is computed from its transactions' weights, for 32-byte hashes in the header.
- Reading a witness commitment out of a coinbase script, and normalizing a username: abstract functions.
- An exception raised while verifying an input counts as a failed check.
- Persistence, recovery, pruning, import and export, and locking: input and output, or shared-memory concerns.
- Configured checkpoints are a parameter, and header-only validation of a segment is not modelled.
- Fee estimation, summaries and statistics.
- The address index of usernames beyond the owners it needs, and the listing order of unspent outputs.
- SQL row ids, raw JSON columns, and the market and token tables of the explorer, which a rebuild leaves empty.
- Elliptic-curve formulas, hash functions, Base58, WIF and Taproot address variants.
- The exchange, payment-channel, peer, HTTP, wallet and site modules.
