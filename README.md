# Block tree ledger core, modelled in Dafny

This project models the core of a small Go ledger library:

- **Blocks** (`blocks.dfy`, block.go): the block record. It has two constructors, `IsNoOp`, `Keys`, the canonical rendering `String(withNonce)` and `Hash`. `strconv.Itoa` is modelled concretely, as decimal with a leading `-` for negatives. `fmt.Sprint` of a map and the hex SHA-256 digest are kept abstract in a `Hashing` value of two deterministic functions.
- **ChainModel** (`chain_model.dfy`, blockchain.go): the block tree as functions over a value `State`. It holds the genesis hash, `ghashChildren`, `nodes`, `tips` and the ordered `purgatory`. `Integrate`, `Replay` and `IntegrateAll` are `IntegrateBlock`, `addFromPurgatoryBlocksWithPrevHash` and the loop over the selected children. They follow the code's recursion exactly.
- **ChainInv, ChainFrame, ChainCascade, ChainTips, ChainQueries**: what those functions guarantee:
  - the invariant `Inv` that every integration keeps, including that the tips are exactly the longest nodes;
  - what changes and what does not (`Frame`);
  - how far the purgatory replay reaches (`ChainCascade`);
  - how the tips move;
  - what the queries compute (`getHelper`, `progenyCount`, `IsValidated`, `IsOnLongestChain`, `ChainTip`).
- **BlockChainImpl** (`blockchain_impl.dfy`): the `BlockChain` struct as a class whose methods update its fields in place. Each state-changing method is proved to move `Abs()` exactly as the matching ChainModel function moves a `State`. The constructor, `IntegrateBlock` and `AddFromPurgatoryBlocksWithPrevHash` are also proved to keep `Valid()`; the private helpers they call (`addToPurgatory`, `addAsChild`, `updateTips`, `pruneTipsLessThan`) are stated by their effect on the fields alone. Each query loop is proved against the model function or property it computes.
- **Miner** (`miner.dfy`, miner.go):
  - `IsHashValid`, a loop with an early `break`;
  - a sequential `GenerateValidBlock` that counts 32-bit nonces up from 0, polls a cancellation flag once per attempt, and writes the nonce into the block in place.

Termination, and the fact that a hash determines its parent, both rest on a ghost `Links` value that the caller supplies:

- `rank` drops strictly from a block's `PrevHash` to its own hash, and never exceeds the rank of genesis;
- `parentOf` maps a block's hash back to its `PrevHash`.

Every block that is integrated must be `Linked`. This is the acyclicity of `PrevHash` links, stated over the abstract hash.

The model keeps the code's own behaviour where it is surprising:

- Re-integrating a known hash overwrites the node with a childless one. It also appends a duplicate child hash to the parent.
- `ChainTip` has no random tie-break. It returns whichever minimal tip the map iteration reaches first, modelled as a nondeterministic choice. The comment at blockchain.go:26-32 asks for a uniformly random pick among the longest chains; the model follows the code.
- The purgatory cascade overwrites the purgatory (`ChainFrame.CascadeKeepsGrandchild`). A grandchild replayed by an inner call ends up among the nodes, yet the outer call's `b.purgatory = newPurgatory` puts it back in the purgatory.

## Model

| member | source | states |
|---|---|---|
| Blocks.NewBlock | block.go:16-24 | stores prevHash, txn, nodeID and nonce verbatim; the client id is empty |
| Blocks.NewNoOpBlock | block.go:26-32 | the block is a no-op with nonce 0, and carries the given parent hash and node id |
| Blocks.IsNoOp | block.go:45-47 | the no-op test; its meaning, an empty transaction map, is `Blocks.NoOpIffEmptyTxn` |
| Blocks.NoOpIffEmptyTxn | block.go:45-47 | `IsNoOp` holds exactly when the transaction map is empty |
| Blocks.Keys | block.go:34-39 | each key of the transaction map appears exactly once, and nothing else appears; no order is promised |
| Blocks.NatToDecimal | block.go:50-53 | `strconv.Itoa` of a non-negative number; its shape is `Blocks.NatToDecimalDigits` and its inverse `Blocks.DecimalRoundTrip` |
| Blocks.Itoa | block.go:50-53 | `strconv.Itoa` with a leading `-` for negatives; injective on nonces by `Blocks.ItoaInjectiveOnNat` |
| Blocks.NatToDecimalDigits | block.go:50-53 | the decimal rendering is non-empty, all digits, and has no leading zero unless the number is 0 |
| Blocks.DecimalRoundTrip | block.go:50-53 | reading back the decimal rendering of n gives n |
| Blocks.ItoaInjectiveOnNat | block.go:52 | distinct nonces render as distinct strings |
| Blocks.String | block.go:49-55 | the canonical rendering; what it depends on is `Blocks.StringWithNonce` and `Blocks.StringIgnoresNonceAndClient` |
| Blocks.Hash | block.go:41-43 | the digest of `String(true)`; its dependencies are `Blocks.HashIgnoresClient` and `Blocks.HashOfNonce` |
| Blocks.StringWithNonce | block.go:49-55 | `String(true)` is `String(false)` followed by the decimal nonce |
| Blocks.StringIgnoresNonceAndClient | block.go:50 | `String(false)` does not change when the nonce or the client id does |
| Blocks.HashIgnoresClient | block.go:41-43 | two blocks that agree on parent hash, transactions, node id and nonce have the same hash, whatever their client ids |
| Blocks.HashOfNonce | block.go:41-55 | the hash of a block with nonce n is the digest of `String(false)` followed by the decimal n |
| ChainModel.NewBlockChain | blockchain.go:13-22 | the empty tree below genesis; `ChainInv.NewBlockChainInv` shows it meets the invariant |
| ChainModel.NewNode | blockchain.go:136-141 | a childless node one longer than the given length; `ChainInv.AttachLengths` and `ChainFrame.IntegrateKnownParent` state the lengths it gives |
| ChainModel.IsOrphan | blockchain.go:81-82 | the parent is neither a node nor genesis; `ChainFrame.IntegrateOrphan` and `ChainFrame.IntegrateKnownParent` state the two outcomes |
| ChainModel.AddToPurgatory | blockchain.go:143-145 | appends to the purgatory; `ChainFrame.IntegrateOrphan` states that nothing else changes |
| ChainModel.PrevNodeChainLength | blockchain.go:205-211 | the parent's length, or -1; `BlockChainImpl.BlockChain.PrevNodeChainLength` states it under the invariant |
| ChainModel.ChildrenOf | blockchain.go:60-64 | the children list of genesis or of a node; `ChainFrame.IntegrateKnownParent` states how integration grows it |
| ChainModel.AddAsChild | blockchain.go:163-171 | the child append; `ChainInv.AttachShape` states that exactly the parent's list grows |
| ChainModel.UpdateTips | blockchain.go:242-247 | the tip update; `ChainInv.AttachTips`, `ChainInv.AttachTipsComplete`, `ChainTips.AttachExtendsLongest`, `ChainTips.AttachForksAtMax` and `ChainTips.AttachBelowMax` state its effect |
| ChainModel.Attach | blockchain.go:86-95 | the known-parent branch of `IntegrateBlock` before the replay; `ChainInv.AttachShape` and `ChainInv.AttachInv` state its effect |
| ChainModel.MaxLength | blockchain.go:116-124 | the value is 0 or a tip's length, and no tip is longer |
| ChainModel.MaxLengthUnique | blockchain.go:116-124 | exactly one value meets that maximum property |
| ChainModel.PruneTipsLessThan | blockchain.go:232-240 | keeps exactly the tips of the given length, each unchanged |
| ChainModel.Select | blockchain.go:150-156 | the two lists of the partition hold only purgatory blocks that do (or do not) wait for the hash |
| ChainModel.Integrate | blockchain.go:80-97 | genesis is unchanged, and every purgatory block still meets the linking assumption |
| ChainModel.Replay | blockchain.go:147-161 | the same two facts for the purgatory replay |
| ChainModel.IntegrateAll | blockchain.go:157-159 | the same two facts for the loop over the selected children |
| ChainModel.ProgenyCountHelper | blockchain.go:217-230 | the count is non-negative when it starts non-negative |
| ChainModel.MaxOverChildren | blockchain.go:222-228 | the loop's maximum is non-negative |
| ChainModel.GetHelper | blockchain.go:184-194 | the walk up the ancestors; `ChainQueries.GetHelperNearest` states what it returns |
| ChainModel.ProgenyCount | blockchain.go:213-215 | `progenyCount`; `ChainQueries.ProgenyIsLongestPath` states that it is the longest downward path |
| ChainModel.ChildRanks | blockchain.go:163-171 | every recorded child is a node that ranks below its parent, so the progeny walk terminates |
| ChainModel.InPurgatory | blockchain.go:196-203 | some parked block has the hash; `BlockChainImpl.BlockChain.IsInPurgatory` computes it and `ChainFrame.IntegrateOrphan` shows an orphan is found |
| ChainModel.Conflicts | blockchain.go:173-182 | the number of keys a transaction map writes; `ChainQueries.ConflictsBounds` states its bounds |
| ChainModel.IsChainTip | blockchain.go:33-46 | the tips `ChainTip` may return; `ChainQueries.ChainTipIsLongest` and `ChainQueries.ChainTipUnique` state which they are |
| ChainInv.AttachShape | blockchain.go:86-95 | a block with a known parent adds or overwrites its node; appends its hash to exactly its parent's children list; leaves every other node, genesis and the purgatory unchanged; and updates the tips |
| ChainInv.OverwriteKeepsParent | blockchain.go:93 | re-integrating a known hash keeps that node's parent and length |
| ChainInv.AttachBlocks | blockchain.go:92-94 | after attaching, every other node keeps its block, and the new node holds the block and has no children |
| ChainInv.AttachNodesOk | blockchain.go:92-94 | after attaching, every node is keyed by its block's hash, and its parent is genesis or a node |
| ChainInv.AttachChildrenOk | blockchain.go:163-171 | after attaching, every recorded child is a node whose parent is the recording node (or genesis) |
| ChainInv.AttachWellFormed | blockchain.go:86-95 | attaching keeps the structural well-formedness |
| ChainInv.AttachLengths | blockchain.go:136-141 | after attaching, every node's length is 1 below genesis, else its parent's length + 1 |
| ChainInv.PruneAtMax | blockchain.go:242-247 | pruning a non-empty candidate map at its maximum leaves a non-empty map with the same maximum |
| ChainInv.CandidatesPositive | blockchain.go:242-247 | the new node is among the candidates, the new maximum is positive, and pruning keeps a tip |
| ChainInv.OldNodesBelowNewMax | blockchain.go:242-247 | no existing node is longer than the new maximum |
| ChainInv.AttachTipsLeaves | blockchain.go:242-247 | after `updateTips`, every tip is a childless node, stored with the same value |
| ChainInv.AttachTips | blockchain.go:242-247 | after `updateTips`, all tips have the maximum length; no node is longer; and there is a tip |
| ChainInv.LongestKept | blockchain.go:232-247 | when a node is added beside the old ones, every node of the new maximum length survives the pruning of the tip candidates |
| ChainInv.AttachTipsComplete | blockchain.go:242-247 | after `updateTips`, every node of the maximum length is a tip, so the tips are exactly the longest nodes |
| ChainInv.AttachInv | blockchain.go:86-95 | attaching a block keeps the whole invariant |
| ChainInv.NewBlockChainInv | blockchain.go:13-22 | the empty tree meets the invariant |
| ChainInv.WithPurgatoryInv | blockchain.go:160 | reassigning the purgatory to linked blocks keeps the invariant |
| ChainInv.IntegrateInv | blockchain.go:80-97 | `IntegrateBlock` keeps the invariant |
| ChainInv.ReplayInv | blockchain.go:147-161 | the purgatory replay keeps the invariant |
| ChainInv.IntegrateAllInv | blockchain.go:157-159 | integrating the selected children one by one keeps the invariant |
| ChainFrame.FrameCompose | blockchain.go:157-159 | two successive changes confined below a rank bound make one change confined below the larger bound |
| ChainFrame.IntegrateFrame | blockchain.go:80-97 | integration loses no node, changes nothing ranked above the parent, and leaves ghashChildren alone unless the parent is genesis |
| ChainFrame.ReplayFrame | blockchain.go:147-161 | the same confinement for the purgatory replay below the new hash |
| ChainFrame.IntegrateAllFrame | blockchain.go:157-159 | the same confinement for the loop over the children |
| ChainFrame.IntegrateOrphan | blockchain.go:81-85 | an orphan is appended to the end of the purgatory and found there; nodes, tips and ghashChildren are unchanged |
| ChainFrame.IntegrateKnownParent | blockchain.go:86-96 | (1) the block becomes the node at its hash, of length 1 below genesis, else parent length + 1; (2) its hash is appended once to the parent's children (what `GetChildren` returns); (3) no node is lost; (4) the purgatory keeps, in order, exactly the blocks not waiting for it |
| ChainFrame.IntegrateAllAdds | blockchain.go:157-159 | once the parent is a node, every selected child becomes a node |
| ChainFrame.WaitingChildrenIntegrated | blockchain.go:147-161 | every purgatory block that waited for the new block is among the nodes afterwards |
| ChainFrame.SelectKeeps | blockchain.go:150-156 | the partition loses no block |
| ChainFrame.SelectNoneWaiting | blockchain.go:150-156 | with no block waiting, nothing is selected and the whole purgatory is kept |
| ChainFrame.IntegrateWithoutWaiting | blockchain.go:80-97 | with no block waiting, integrating is just node insertion, child append and tip update |
| ChainFrame.SelectPair | blockchain.go:150-156 | the partition of a two-block purgatory, block by block |
| ChainFrame.CascadeInner | blockchain.go:157-159 | the inner replay for the child integrates the grandchild |
| ChainFrame.CascadeOuter | blockchain.go:147-161 | the outer replay integrates child and grandchild, yet resets the purgatory to just the grandchild |
| ChainFrame.CascadeKeepsGrandchild | blockchain.go:157-160 | integrating a block whose purgatory holds its child and then a grandchild makes both nodes, and leaves the grandchild parked |
| ChainCascade.ChainBelow | blockchain.go:147-161 | every block along a chain of parked blocks ranks below the hash the chain hangs from |
| ChainCascade.ChainIntegrated | blockchain.go:80-97 | integrating a block with a known parent makes a node of every block on a chain of parked blocks waiting for it, however long |
| ChainCascade.IntegrateAllChain | blockchain.go:157-159 | the same for the loop over the children, when the chain's first block is still to be integrated |
| ChainCascade.PendingDescendantsIntegrated | blockchain.go:80-97 | every parked block linked to the new block through parked blocks is among the nodes afterwards |
| ChainTips.GenesisNotNode | blockchain.go:80-97 | genesis is never a node |
| ChainTips.MaxLengthIsLongestNode | blockchain.go:116-124 | `MaxChainLength` is the greatest length of any node (0 for an empty tree), and some node attains it |
| ChainTips.NewNodeAtMostOneLonger | blockchain.go:136-141 | a new node is at least 1 and at most one longer than the longest chain |
| ChainTips.AttachExtendsLongest | blockchain.go:242-247 | extending a longest chain collapses the tips to the single new hash; the maximum grows by one |
| ChainTips.PruneToLongest | blockchain.go:232-240 | pruning at a length only one candidate has keeps that candidate alone |
| ChainTips.AttachForksAtMax | blockchain.go:242-247 | a block as long as the longest chain joins the tips and every other tip stays |
| ChainTips.BelowMaxCandidates | blockchain.go:242-244 | a shorter block neither removes a tip nor lands on one |
| ChainTips.PruneDropsShorter | blockchain.go:232-240 | pruning drops a shorter candidate and gives the tips back |
| ChainTips.AttachBelowMax | blockchain.go:242-247 | a block shorter than the longest chain leaves the tips unchanged |
| ChainQueries.Ancestry | blockchain.go:184-194 | the hashes from a node back to genesis: nodes, nearest first, each one the parent of the one before, the last a child of genesis |
| ChainQueries.GetHelperNearest | blockchain.go:184-194 | `getHelper` returns the value written by the nearest ancestor that writes the key, or "" when none does |
| ChainQueries.LengthIsAncestry | blockchain.go:76-78 | a node's length is its number of blocks back to genesis |
| ChainQueries.MaxOverChildrenGe | blockchain.go:222-228 | the children loop reaches at least each child's count |
| ChainQueries.MaxOverChildrenAttained | blockchain.go:222-228 | the children loop attains some child's count |
| ChainQueries.ProgenyBound | blockchain.go:217-230 | no downward path is longer than the progeny count |
| ChainQueries.ProgenyWitness | blockchain.go:217-230 | some downward path is exactly as long as the progeny count |
| ChainQueries.ProgenyIsLongestPath | blockchain.go:213-230 | `progenyCount` is the length of the longest downward path, not the number of descendants |
| ChainQueries.PathEndLength | blockchain.go:136-141 | lengths grow by one along a downward path |
| ChainQueries.ValidatedIff | blockchain.go:101-106 | `progenyCount(h) >= n` holds exactly when some downward path has at least n blocks |
| ChainQueries.LongestChainIff | blockchain.go:108-114 | length + progeny count equals the maximum exactly when some downward path reaches the greatest chain length |
| ChainQueries.ConflictsBounds | blockchain.go:173-182 | the conflict count is at most the number of keys; it is zero exactly when no key is written, and full exactly when every key is written |
| ChainQueries.ChainTipIsLongest | blockchain.go:33-46 | with fewer than MaxInt32 keys, the chain tip of a non-empty tree is a tip of maximum length; for an empty tree it is genesis |
| ChainQueries.ChainTipUnique | blockchain.go:33-46 | a tip with strictly fewer conflicts than all others is the only possible chain tip |
| BlockChainImpl.InvTipsKeyed | blockchain.go:232-240 | every tip is stored under its own block's hash, so re-keying in `pruneTipsLessThan` keeps each key |
| BlockChainImpl.SplitByParent | blockchain.go:148-156 | the partition loop builds, in order, the blocks waiting for the hash and the others |
| BlockChainImpl.BlockChain.constructor | blockchain.go:13-22 | an empty tree below the genesis hash that meets the invariant |
| BlockChainImpl.BlockChain.ChainTip | blockchain.go:33-46 | genesis for an empty tree; otherwise a tip with no more conflicts than any other; "" when every tip has at least MaxInt32 conflicts |
| BlockChainImpl.BlockChain.GetChildren | blockchain.go:56-65 | `[ghash]` for ""; otherwise the recorded children of the parent, each a node whose parent hash is that parent |
| BlockChainImpl.BlockChain.Get | blockchain.go:70-74 | the value written by the nearest block, on the chain ending at the tip `ChainTip(nil)` picks, that writes the key; "" when none does |
| BlockChainImpl.BlockChain.GetTxID | blockchain.go:76-78 | the node's length, at least 1 and equal to its number of blocks back to genesis |
| BlockChainImpl.BlockChain.IntegrateBlock | blockchain.go:80-97 | the new state is `ChainModel.Integrate` of the old one, and the invariant is kept |
| BlockChainImpl.BlockChain.IsValidated | blockchain.go:101-106 | false for a parked block; otherwise true exactly when some downward path has at least the given number of blocks |
| BlockChainImpl.BlockChain.IsOnLongestChain | blockchain.go:108-114 | false for a parked block; otherwise true exactly when some downward path reaches the greatest chain length |
| BlockChainImpl.BlockChain.MaxChainLength | blockchain.go:116-124 | the greatest tip length; under the invariant, no node is longer and some node of a non-empty tree attains it |
| BlockChainImpl.BlockChain.AddToPurgatory | blockchain.go:143-145 | appends the block to the end of the purgatory and changes nothing else |
| BlockChainImpl.BlockChain.AddFromPurgatoryBlocksWithPrevHash | blockchain.go:147-161 | the new state is `ChainModel.Replay` of the old one, and the invariant is kept |
| BlockChainImpl.BlockChain.AddAsChild | blockchain.go:163-171 | appends the block's hash to ghashChildren or to its parent's children, and nothing else |
| BlockChainImpl.BlockChain.CountKeyConflicts | blockchain.go:173-182 | the number of current keys the node's block writes, between 0 and the number of keys, and zero exactly when none is written |
| BlockChainImpl.BlockChain.IsInPurgatory | blockchain.go:196-203 | true exactly when some parked block has the hash |
| BlockChainImpl.BlockChain.PrevNodeChainLength | blockchain.go:205-211 | the parent's length (at least 1 under the invariant), or -1 when the parent is not a node |
| BlockChainImpl.BlockChain.ProgenyCount | blockchain.go:213-215 | the length of the longest downward path from the node |
| BlockChainImpl.BlockChain.ProgenyCountHelper | blockchain.go:217-230 | the count a leaf starts with, or one more than the largest child count |
| BlockChainImpl.BlockChain.PruneTipsLessThan | blockchain.go:232-240 | the tips become exactly the old tips of the given length; nothing else changes |
| BlockChainImpl.BlockChain.UpdateTips | blockchain.go:242-247 | the tips lose the parent, gain the new node, and are pruned to the maximum length; nothing else changes |
| Miner.ZeroPrefix | miner.go:59-68 | the first k characters are all '0'; `Miner.IsHashValid` computes it and `Miner.ValidityDownwardClosed` relates the counts |
| Miner.IsHashValid | miner.go:59-68 | valid exactly when the first k characters are all '0' (so always for k = 0) |
| Miner.ValidityDownwardClosed | miner.go:59-68 | a hash valid for k zeros is valid for every smaller count |
| Miner.MinedHashValid | miner.go:48-52 | a nonce that works for `String(false)` makes the block's own hash valid once stored |
| Miner.BlockCell.constructor | miner.go:33 | the cell holds the block the caller passes by pointer |
| Miner.NextNonce | miner.go:55 | `nonce++` on a uint32; `Miner.NonceAtIsMod` states the wrap-around |
| Miner.NonceAt | miner.go:34-55 | the nonce of the i-th attempt; `Miner.NonceAtIsMod` states it is i modulo 2^32 |
| Miner.NonceAtIsMod | miner.go:34-55 | the i-th nonce tried is i modulo 2^32, because `nonce++` on a uint32 wraps |
| Miner.Miner.constructor | miner.go:18-23 | stores the zero count and parent node id; the cancel flag starts false |
| Miner.Miner.CancelBlockGeneration | miner.go:25-29 | sets the cancel flag |
| Miner.Miner.TryNonce | miner.go:48-50 | checks whether the digest of the rendering followed by the decimal nonce is valid |
| Miner.Miner.GenerateValidBlock | miner.go:33-57 | (1) every earlier attempt found no cancel and an invalid nonce; (2) on success, only the nonce of the block changed, it is the first working nonce counting from 0 with wrap-around, and the block's hash is valid; (3) on cancel, the block is untouched and the flag is set |

## Left out

- SHA-256 and hex formatting (miner.go:70-75) are an abstract function `Hashing.sha256`. Nothing is claimed about its output length beyond what `GenerateValidBlock`'s caller assumes (at least `numZeroes` characters).
- `fmt.Sprint` of a transaction map is an abstract deterministic function `Hashing.render`.
- Go strings are byte sequences and `range` over one yields runes. The model uses `seq<char>` throughout; the two agree on ASCII text.
- The mutex, channels and goroutines of the miner are left out. A cancellation by another goroutine is the input `cancelRequested(i)`: the flag was raised before the i-th poll. The `success`/`cancelled` channel sends become the returned `Outcome`.
- Miner.Miner.GenerateValidBlock: the Go loop is unbounded. The model takes a `fuel` bound and returns `Exhausted` when it runs out, so it does not show that a working nonce is ever found.
- Miner.Miner.GenerateValidBlock: for `hash[:numZeroes]` not to panic, the caller must guarantee every digest is at least `numZeroes` long.
- Tips are node values, not pointers shared with `nodes`. Only a tip's length and block are ever read through the tips map, and neither ever changes in place. `addAsChild` does grow the children of the node object that a parent tip shares with `nodes`, but `updateTips` removes that parent from the tips straight after.
- Blocks are values, not `*Block` pointers. The library never mutates a block once it is integrated.
- Acyclic parent links are an assumption: every integrated block must be `Linked` to a caller-supplied ghost ranking. A block whose hash equals an ancestor's is outside the model.
- In Go, a lookup of an unknown hash in `nodes` yields a nil `*node`, and the field access that follows (`node.children` at blockchain.go:64 and 218, `.length` at 77 and 112) panics. `GetChildren`, `GetTxID`, `progenyCount`, `IsValidated` and `IsOnLongestChain` therefore require a known hash, rather than modelling the panic.
- BlockChainImpl.BlockChain.ChainTip: the order of Go's map iteration is nondeterministic. The first-met tip among the fewest conflicts is a nondeterministic choice, so the model promises only "a tip with the fewest conflicts".
- The random tie-break that the comment at blockchain.go:26-32 describes is not implemented by the code, and the model has none either.
- Blocks.Keys: the Go function returns a nil slice for an empty map. The model returns the empty sequence, which cannot be told apart by its callers.
