# Verified models of the lk-chain node

Dafny models of the parts of lk-chain (a go-ethereum fork with its own fee and validator
rules) whose fast or incremental code must agree with a simple definition. `dafny verify
dfyconfig.toml` checks the whole project.

| files | part of the node | simple definition it is proved against |
|---|---|---|
| `Ancestry`, `HeaderChain`, `BlockChain` | header and block chain: canonical index, total difficulties, transaction lookup, reorganisation | the ancestor path of the head |
| `BmtTree`, `BmtHasher`, `BmtInvariant`, `BmtSteps`, `BmtRuns`, `BmtWrapped`, `BmtWriter` | concurrent binary Merkle tree hasher, every interleaving of its goroutines, every chunk length | the recursive reference hasher |
| `PendingLimit` | fair eviction of pending transactions | one water level |
| `SelectTree`, `WeightedSelect` | weighted random selection tree | a flat item-to-weight map |
| `Feed` | event feed with removals during a send | sets of channels |
| `SectionIndex`, `SectionRace`, `ChainIndexer` | section indexer working with its lock released | runs of parent-linked headers |
| `BinaryHeap`, `TxSortedMap`, `TxList`, `TxPricedList` | transaction containers of the pool | maps and sorted lists |
| `Distributor` | request distribution to light servers | each peer's earliest request |
| `AbiWords`, `AbiCodec`, `AbiFormat`, `AbiArguments`, `AbiLosses`, `AbiOffsets` | contract ABI codec (Solidity Contract ABI Specification, section "Formal Specification of the Encoding") | the values encoded, and the bytes that the specification gives them |
| `SweepFee` | fee and sweep search | the largest affordable amount |
| `ValidatorChange` | vote on validator power changes | quorums as sets |
| `Sums`, `Multiples`, `Transactions`, `Wrappers` | shared definitions | |

Hashes are symbolic: a hash is the zero hash or the hash of one header, so distinct headers
have distinct hashes and no header is its own ancestor. Objects that the source updates in
place are classes; concurrent code is a state machine whose schedules are arbitrary, or a
method in which other threads may do anything they can between two steps. Random draws,
readiness, database reads, signature checks and peers' answers are parameters or arbitrary.

Where the code does not do what one might expect, an input shows it and the exact condition is
stated:

- A winning branch is inserted newest first, so the header head is left at its oldest block: it
  is the new block head exactly when the branch is one block long
  (`BlockChain.BlockChain.WriteBlockAndState`, input: `BlockChain.LaggingHeader`). This holds as
  long as no block is written twice, or all difficulties are positive (`BlockChain.HeaviestTidy`).
- The hasher's toggle works exactly while its 32-bit counter is not negative. For every segment
  size and collision-free base hash, a tree with clean flags and even counters gives every chunk its
  hash under every schedule exactly when no inner counter is negative (`BmtWrapped.ServesIff`,
  inputs: `BmtWrapped.SentTwice`, `BmtWrapped.Spoils`).
- Several writes to a hasher leave what one write of all bytes leaves exactly if none of them, with
  an odd number of segments, begins below the last leaf and ends above the cap
  (`BmtWriter.WriteAll`, input: `BmtWriter.TakesTooMuch`).
- The indexer rolls back without its lock when the backend's reset fails. The index is in order
  after every interleaving with the notifications exactly when these are harmless: no reorg
  reaches below the stored sections or, with one section stored, nothing but reorgs to section 0
  follows the first such one (`SectionRace.SurvivesIff`, input: `SectionRace.CountOutlivesHeads`).
- The indexer completes a section although a reorg reached into it while it was processed; the
  stored section is stale exactly if the fork lies within it (`ChainIndexer.StaleIff`, input:
  `ChainIndexer.StaleSection`).
- A validator that signs under two spellings of its key counts twice. Signatures that are enough
  come from a quorum, whatever the powers, exactly if no validator is spelled twice or all sign
  (`ValidatorChange.QuorumIff`, input: `ValidatorChange.NothingShared`).
- The ABI encoder panics on an empty list of arrays, counts an array by its outermost size only and
  writes dynamic elements in place; the decoder reads slices a word at a time and skips indexed
  arguments. All values of an argument list come back exactly if no argument is indexed, no offset
  is needed or the count is right, no dynamic type is in an array or slice, slice elements are
  single words and no arrays, no array without elements is one of arrays, and enough data follows
  what has no width (`AbiOffsets.FaithfulIff`, inputs: `AbiOffsets.NestedLost`,
  `AbiOffsets.EmptySlicePanics`, `AbiOffsets.ZeroArrayPanics`). A number comes back exactly if it is in range, which no negative
  big integer is (`AbiCodec.IntRoundTrip`).
- A transaction can have two entries in the price heap and is then dropped twice; the transactions
  dropped are distinct if each has one entry (`TxPricedList.TxPricedList.Discard`, input:
  `TxPricedList.ListedTwice`).

## Model

| member | source | states |
|---|---|---|
| Ancestry.UpRooted | ethereum/go-ethereum/core/database_util.go:606-633 | A header linked to genesis has exactly one ancestor at every height down to 0, each the parent of the next, and the one at 0 is genesis. |
| Ancestry.AncestorIffUp | ethereum/go-ethereum/core/database_util.go:606-633 | Walking parent hashes and taking the ancestor by height describe the same set of ancestors. |
| Ancestry.ParentFound | ethereum/go-ethereum/core/database_util.go:158-169 | In a parent-closed store the parent of a header is found under its hash and number. |
| Ancestry.HeaderAdded | ethereum/go-ethereum/core/headerchain.go:137-151 | Adding a header with a known parent keeps the store parent-closed and makes its stored total difficulty the sum along its path. |
| Ancestry.TotalIsPathSum | ethereum/go-ethereum/core/headerchain.go:137-151 | The stored total difficulty of a header is the sum of the difficulties of its ancestors, height by height. |
| Ancestry.HeaviestKept | ethereum/go-ethereum/core/headerchain.go:142-189 | The head chosen by the fork rule has at least the total difficulty of every header stored. |
| Ancestry.LowestKept | ethereum/go-ethereum/core/blockchain.go:885-888 | The head chosen by the fork rule of block writes has the lowest number among the heaviest headers stored. |
| Ancestry.MeetingPointIsHighest | ethereum/go-ethereum/core/database_util.go:616-631 | Where two paths agree and stop agreeing one block above, no higher common ancestor exists. |
| Ancestry.Descend | ethereum/go-ethereum/core/database_util.go:610-621 | Following parents down to a height ends at the ancestor there, or reports that a header is missing. |
| Ancestry.FindCommonAncestor | ethereum/go-ethereum/core/database_util.go:609-633 | In a parent-closed store the search ends and returns the highest-numbered header that is an ancestor of both. |
| HeaderChain.PatchComplete | ethereum/go-ethereum/core/headerchain.go:164-180 | Once the walk meets an index entry that already agrees, the patched index is the whole path of the new head. |
| HeaderChain.HeaderChain.constructor | ethereum/go-ethereum/core/headerchain.go:71-106 | A chain of genesis alone satisfies the invariant. |
| HeaderChain.HeaderChain.DeleteAbove | ethereum/go-ethereum/core/headerchain.go:156-163 | Exactly the index entries above the new head are deleted. |
| HeaderChain.HeaderChain.OverwriteStale | ethereum/go-ethereum/core/headerchain.go:164-176 | The overwrite loop ends and leaves the index equal to the ancestor path of the new head. |
| HeaderChain.HeaderChain.Reroute | ethereum/go-ethereum/core/headerchain.go:155-184 | After re-routing, the index is exactly the new head's path and the head and its persisted hash agree. |
| HeaderChain.HeaderChain.WriteHeader | ethereum/go-ethereum/core/headerchain.go:131-195 | Every write keeps: index = path of the head with nothing above it, each total difficulty = sum along its path, head heaviest of all headers. A missing parent changes nothing; otherwise a heavier header becomes the head, a lighter one does not and an equal one does exactly if the coin says so. |
| HeaderChain.HeaderChain.InsertHeaderChain | ethereum/go-ethereum/core/headerchain.go:259-293 | For a contiguous run: no error if and only if nothing interrupts and the first header is known or has a known parent, and then all are stored; an unknown ancestor changes nothing; an interruption is reported at its first index with all before it stored; known headers are skipped, and a run of known ones changes nothing. |
| HeaderChain.CheckContiguous | ethereum/go-ethereum/core/headerchain.go:204-216 | The ancestry check passes exactly for runs whose numbers and parent hashes follow each other. |
| BlockChain.OverlayStep | ethereum/go-ethereum/core/blockchain.go:1341-1347 | Writing one more block of the new branch extends the overwritten part of the lookup index by exactly its transactions. |
| BlockChain.ReorgLookup | ethereum/go-ethereum/core/blockchain.go:1339-1357 | Overlaying the new branch and deleting the difference turns an exact lookup index of the old head into an exact one of the new head. |
| BlockChain.ExtendLookup | ethereum/go-ethereum/core/blockchain.go:896-899 | Writing the entries of a child of the head keeps the lookup index exact. |
| BlockChain.RewriteLookup | ethereum/go-ethereum/core/blockchain.go:889-899 | Writing the entries of the head again changes nothing. |
| BlockChain.WriteTxLookupEntries | ethereum/go-ethereum/core/database_util.go:464-481 | Each transaction of the block gets an entry naming the block, its number and an index where it stands; other entries stay. |
| BlockChain.TxDifference | ethereum/go-ethereum/core/types/transaction.go:434-449 | Keeps exactly the transactions of the first list that are not in the second. |
| BlockChain.DeleteTxLookupEntries | ethereum/go-ethereum/core/blockchain.go:1352-1357 | Deletes exactly the entries of the listed transactions. |
| BlockChain.Reduce | ethereum/go-ethereum/core/blockchain.go:1287-1300 | Walking the longer branch down collects exactly its blocks and transactions above the other head's height. |
| BlockChain.Level | ethereum/go-ethereum/core/blockchain.go:1287-1307 | The longer of two branches is walked down to the height of the shorter. |
| BlockChain.CollectBranches | ethereum/go-ethereum/core/blockchain.go:1287-1327 | Both branches are collected, newest first, down to the block where they fork; no read fails in a parent-closed store. |
| BlockChain.PathWrittenHolds | ethereum/go-ethereum/core/blockchain.go:1341-1346 | An index rewritten above the fork with the new branch holds the new head's whole path. |
| BlockChain.NewHeadTidy | ethereum/go-ethereum/core/blockchain.go:467-489 | After a head that was not stored before, no index entry above it descends from it. |
| BlockChain.HeaviestTidy | ethereum/go-ethereum/core/blockchain.go:876-889 | With positive difficulties no index entry above the heaviest head descends from it. |
| BlockChain.EntryDiffers | ethereum/go-ethereum/core/blockchain.go:469-483 | The index entry one above the fork is not that of the new branch, so inserting its oldest block moves the header head. |
| BlockChain.HeadOfBranch | ethereum/go-ethereum/core/blockchain.go:467-489 | The header head after a new branch is its oldest block; if there is no new block it stays. |
| BlockChain.BlockChain.constructor | ethereum/go-ethereum/core/blockchain.go:124-160 | A chain of genesis alone satisfies the invariant. |
| BlockChain.BlockChain.Insert | ethereum/go-ethereum/core/blockchain.go:467-489 | Sets one index entry and the block head; header and fast heads follow only if the entry changes. |
| BlockChain.BlockChain.AdoptBranch | ethereum/go-ethereum/core/blockchain.go:1339-1349 | Inserting the branch newest first writes its whole path and lookup entries and leaves the header head at its oldest block. |
| BlockChain.BlockChain.Reorg | ethereum/go-ethereum/core/blockchain.go:1264-1357 | After a reorganisation the index holds the new head's path, entries off the new branch are unchanged, the header head is its oldest block if that entry changed, and the lookup index is exact for it, if it was for the old head. |
| BlockChain.BlockChain.WriteTd | ethereum/go-ethereum/core/blockchain.go:853-888 | The stored total difficulty is the sum along the path. The head is never lighter than any stored block, and of the heaviest it has the lowest number. |
| BlockChain.BlockChain.TakeHead | ethereum/go-ethereum/core/blockchain.go:889-915 | Canonical blocks extend or reorganise the chain so that index and lookup index again describe the head's path. |
| BlockChain.BlockChain.StoreHead | ethereum/go-ethereum/core/blockchain.go:896-915 | Storing the body and lookup entries and inserting the block keeps the lookup index exact. |
| BlockChain.BlockChain.Commit | ethereum/go-ethereum/core/blockchain.go:889-917 | A winning block becomes the head with index and lookup index describing its path; a losing one is stored and changes neither. |
| BlockChain.BlockChain.WriteBlockAndState | ethereum/go-ethereum/core/blockchain.go:849-918 | For every run of block writes over any forks: index entries up to the head are its ancestor path and all entries name stored blocks, the head is heaviest and of the heaviest the lowest, and if no branch holds a transaction twice a lookup entry exists exactly for the transactions on that path and names their positions. A block of equal weight wins with a lower number, loses with a higher one, and with the same number exactly if the coin says so. If no block is written twice, a new head leaves the header head at the oldest block of its branch, which is the new head exactly if the branch is one block long. |
| BlockChain.LaggingHeader | ethereum/go-ethereum/core/blockchain.go:849-918 | Two siblings and a child of the lighter one: the child is the block head and its parent the header head. |
| BlockChain.TieForLower | ethereum/go-ethereum/core/blockchain.go:885-888 | Two blocks of difficulty 1 on genesis, then a sibling of the first of difficulty 2: the sibling becomes the head, whatever the coin. |
| BmtTree.NewRefSpan | ethereum/go-ethereum/bmt/bmt_r.go:39-55 | The span is half the least power of two, from 2 on, that covers the segment count, but two segments at least. |
| BmtTree.RefTwoLeaves | ethereum/go-ethereum/bmt/bmt_r.go:67-85 | Of three or four segments the first two and the others are hashed, a single one not by itself, and then both in order. |
| BmtTree.RefIsTree | ethereum/go-ethereum/bmt/bmt_r.go:67-85 | The reference hasher's recursion on bytes equals the tree value by height, whatever its span above the data. |
| BmtTree.ValIsTree | ethereum/go-ethereum/bmt/bmt.go:463-494 | The value of a node over double segments is the tree value of the bytes under it. |
| BmtTree.RootIsRef | ethereum/go-ethereum/bmt/bmt_r.go:59-85 | For every chunk of any length the root value is the reference hash. |
| BmtHasher.Depth | ethereum/go-ethereum/bmt/bmt.go:521-526 | The depth is the least number of levels that joins all leaves. |
| BmtHasher.NewTree | ethereum/go-ethereum/bmt/bmt.go:253-275 | A new tree has all its nodes, zero counters and one root. |
| BmtWriter.WriteChunk | ethereum/go-ethereum/bmt/bmt.go:334-373 | One write to a fresh hasher cuts the bytes taken in into consecutive double segments, the last one left open, never more than there are leaves. |
| BmtWriter.PushSegments | ethereum/go-ethereum/bmt/bmt.go:357-370 | The loop hands on full double segments, the open one completed first, and ends with all bytes taken or with no leaf left. |
| BmtWriter.Write | ethereum/go-ethereum/bmt/bmt.go:334-373 | A write to an open hasher appends a reckoned number of bytes to what it holds, or panics exactly if more than a segment is already open at the last leaf of an odd count. |
| BmtWriter.TakenExact | ethereum/go-ethereum/bmt/bmt.go:341-349 | A write takes in what there is up to the cap exactly if it does not cross it from below the last leaf of an odd count. |
| BmtWriter.WriteAll | ethereum/go-ethereum/bmt/bmt.go:334-373 | Several writes leave the segments of all bytes up to the cap if and only if none of them crosses it in that way. |
| BmtWriter.SmoothIf | ethereum/go-ethereum/bmt/bmt.go:334-373 | With an even count, or no more bytes than the cap, none does. |
| BmtWriter.TakesTooMuch | ethereum/go-ethereum/bmt/bmt.go:334-373 | Three segments of 32 bytes, written to in 40 and 80 bytes, take in 120. |
| BmtInvariant.InitInv | ethereum/go-ethereum/bmt/bmt.go:253-275 | A ready tree with nothing launched satisfies the invariant of the concurrent run. |
| BmtSteps.WorkerStep | ethereum/go-ethereum/bmt/bmt.go:442-511 | Every single access of a goroutine (write, flag read, toggle, combination, delivery) keeps the invariant: each launched leaf belongs to one running goroutine, one waiting node or the result. |
| BmtSteps.WriterStep | ethereum/go-ethereum/bmt/bmt.go:530-547 | Every step of the writer (launching, marking the final path, launching the last segment) keeps the invariant. |
| BmtRuns.RunInv | ethereum/go-ethereum/bmt/bmt.go:293-306 | The invariant holds after every schedule of steps. |
| BmtRuns.NeverStuck | ethereum/go-ethereum/bmt/bmt.go:463-494 | No schedule gets stuck before a result is sent. |
| BmtRuns.RankFalls | ethereum/go-ethereum/bmt/bmt.go:463-494 | Every step uses up a bounded rank. |
| BmtRuns.RunsAreFinite | ethereum/go-ethereum/bmt/bmt.go:463-494 | No schedule has more steps than the rank of the first state. |
| BmtRuns.ReleaseAt | ethereum/go-ethereum/bmt/bmt.go:425-439 | Releasing clears the flags of exactly the nodes above the last leaf, keeping the top as root. |
| BmtRuns.MeetsTwoExact | ethereum/go-ethereum/bmt/bmt.go:509-511 | On an int32 counter a node stops its first visitor and passes its second exactly when the counter is even and not negative. |
| BmtRuns.RunCorrect | ethereum/go-ethereum/bmt/bmt.go:293-306 | For every chunk and schedule at most one value is sent, it is the reference hash, and then all goroutines have ended, all counters moved by zero or two and the released tree is clean. |
| BmtRuns.HashChunk | ethereum/go-ethereum/bmt/bmt.go:253-373 | Building the tree, writing any bytes and running any schedule ends in a state in which nothing can move if and only if the reference hash, and nothing else, has been sent. |
| BmtWrapped.Subtree | ethereum/go-ethereum/bmt/bmt.go:463-494 | The goroutines of a full subtree with tame counters can send exactly one of them on to the node above, alone. |
| BmtWrapped.SentEarly | ethereum/go-ethereum/bmt/bmt.go:463-511 | Past a negative counter a value can be sent although a goroutine has not yet moved. |
| BmtWrapped.SentTwice | ethereum/go-ethereum/bmt/bmt.go:463-511 | Two leaves under a node with a negative even counter: some schedule sends two values. |
| BmtWrapped.TwinRun | ethereum/go-ethereum/bmt/bmt.go:463-494 | As long as one goroutine has not moved, a run does not depend on its segment. |
| BmtWrapped.Spoils | ethereum/go-ethereum/bmt/bmt.go:463-511 | A negative counter gives two chunks that end where its node joins two halves the same value under one schedule; their hashes differ unless a node of the two shows a collision of the base hash. |
| BmtWrapped.TameServes | ethereum/go-ethereum/bmt/bmt.go:463-511 | Without negative inner counters this holds for every base hash. |
| BmtWrapped.ServesIff | ethereum/go-ethereum/bmt/bmt.go:463-511 | For every segment size and collision-free base hash, and trees with clean flags and even int32 counters: every chunk and schedule sends nothing but the hash, once, if and only if no inner counter is negative. |
| BmtWrapped.ReusableIff | ethereum/go-ethereum/bmt/bmt.go:425-439 | A tree released after any chunk is clean and even, and serves the next chunks exactly until an inner counter has wrapped. |
| PendingLimit.TotalMono | ethereum/go-ethereum/core/tx_pool.go:1106-1176 | The total at a higher level is not smaller. |
| PendingLimit.WaterLevelUnique | ethereum/go-ethereum/core/tx_pool.go:1106-1176 | The level, as far as it shows in list lengths, is determined by the pool and the limits. |
| PendingLimit.LevelUp | ethereum/go-ethereum/core/tx_pool.go:1134-1151 | One round over the offenders lowers the total by their number and the level by one. |
| PendingLimit.WaterLevelFound | ethereum/go-ethereum/core/tx_pool.go:1106-1176 | A level that fits while the next does not, or the allowance if even that does not fit, is the water level. |
| PendingLimit.LevelViewExact | ethereum/go-ethereum/core/tx_pool.go:1136-1149 | At level T local lists stay, others keep their first T transactions; the hashes of exactly the others are forgotten, and a nonce becomes the lowest dropped, if that is lower. |
| PendingLimit.LevelFair | ethereum/go-ethereum/core/tx_pool.go:1106-1176 | At the water level no list that was cut is below the allowance or shorter than another non-local list, and the total is within the limit or no non-local list is above the allowance. |
| PendingLimit.LevelTight | ethereum/go-ethereum/core/tx_pool.go:1134-1151 | With one more transaction for each account that lost some, the total is above the limit. |
| PendingLimit.DropOne | ethereum/go-ethereum/core/tx_pool.go:1136-1149 | Dropping an account's last transaction shortens its list by one, forgets its hash and lowers the account's nonce to it. |
| PendingLimit.Round | ethereum/go-ethereum/core/tx_pool.go:1135-1150 | A round drops the last transaction of every offender once and the counter follows. |
| PendingLimit.LowerLevel | ethereum/go-ethereum/core/tx_pool.go:1134-1151 | A round turns the pool cut to one level into the pool cut to the next lower one. |
| PendingLimit.PopSpammer | ethereum/go-ethereum/core/tx_pool.go:1124-1126 | The spammer taken is a longest one, so every earlier offender is at least as long. |
| PendingLimit.CutDown | ethereum/go-ethereum/core/tx_pool.go:1133-1151 | Rounds go on until the total fits or the offenders are at the floor; the result is the pool cut to some level, and the level above did not fit. |
| PendingLimit.Admit | ethereum/go-ethereum/core/tx_pool.go:1123-1153 | Admitting the next spammer equalises all earlier offenders with it or ends at the limit. |
| PendingLimit.Gather | ethereum/go-ethereum/core/tx_pool.go:1121-1153 | When the spammers run out or the total fits, the pool is cut to one level. |
| PendingLimit.CutToLimit | ethereum/go-ethereum/core/tx_pool.go:1111-1176 | Both stages together cut the pool to its water level. |
| PendingLimit.TxPool.CountPending | ethereum/go-ethereum/core/tx_pool.go:1107-1110 | The counter starts as the true total. |
| PendingLimit.TxPool.FindSpammers | ethereum/go-ethereum/core/tx_pool.go:1113-1120 | The spammers are exactly the non-local accounts above the allowance. |
| PendingLimit.TxPool.EqualisePending | ethereum/go-ethereum/core/tx_pool.go:1106-1176 | There is one level T with every non-local list cut to min(length, T): the largest that fits, or the allowance. Within the limit nothing changes; the counter is the true total; dropped hashes and nonces follow exactly. Cuts are fair, and none goes further than needed. |
| SelectTree.LeavesSize | ethereum/go-ethereum/les/randselect.go:98-104 | A slot in order has as many leaves as room and weighs the sum of its leaves. |
| WeightedSelect.NotAllFull | ethereum/go-ethereum/les/randselect.go:108-114 | Below its capacity a node has a branch with room: the panic of insert is unreachable. |
| WeightedSelect.FindRoom | ethereum/go-ethereum/les/randselect.go:108-114 | The search stops at the first branch with room. |
| WeightedSelect.Insert | ethereum/go-ethereum/les/randselect.go:107-132 | Inserting fills exactly one free leaf, returns its index, and all sums and counts in the tree stay exact. |
| WeightedSelect.SetNodeWeight | ethereum/go-ethereum/les/randselect.go:136-157 | Setting a weight changes exactly the leaf at the index, returns the change, and keeps all sums and counts exact. |
| WeightedSelect.PickIs | ethereum/go-ethereum/les/randselect.go:160-173 | A leaf is picked by exactly the values between the total before it and the total with it. |
| WeightedSelect.FindShare | ethereum/go-ethereum/les/randselect.go:161-172 | The loop finds the branch in whose share the value lies and never falls through. |
| WeightedSelect.ChooseLeaf | ethereum/go-ethereum/les/randselect.go:160-173 | The choice returns the leaf that the value falls on, with its stored, positive weight. |
| WeightedSelect.TotalIsSum | ethereum/go-ethereum/les/randselect.go:98-104 | The root's sum is the sum of the flat item-to-weight map. |
| WeightedSelect.Proportional | ethereum/go-ethereum/les/randselect.go:160-173 | Exactly w of the values in [0, sumWeight) choose an item of weight w, none an absent one. |
| WeightedSelect.AcceptedShare | ethereum/go-ethereum/les/randselect.go:90-92 | Of the w second draws for an item of stored weight w, exactly min(w, current weight) accept it. |
| WeightedSelect.RoundShare | ethereum/go-ethereum/les/randselect.go:84-92 | A round returns an item for exactly w * min(w, current weight) pairs of draws, so in proportion to a weight that has fallen. |
| WeightedSelect.GrownKeeps | ethereum/go-ethereum/les/randselect.go:62-68 | Adding a level keeps every stored index valid and all weights, and makes room. |
| WeightedSelect.WeightedRandomSelect.constructor | ethereum/go-ethereum/les/randselect.go:38-40 | An empty selector satisfies the invariant. |
| WeightedSelect.WeightedRandomSelect.SetWeight | ethereum/go-ethereum/les/randselect.go:54-73 | The flat map changes in exactly the named item, which weight zero removes. |
| WeightedSelect.WeightedRandomSelect.Draw | ethereum/go-ethereum/les/randselect.go:84-92 | One round picks the item of its first draw, updates its weight and accepts it by its second draw; refusing it lowers the total strictly, accepting it needs a positive weight. |
| WeightedSelect.WeightedRandomSelect.Choose | ethereum/go-ethereum/les/randselect.go:79-94 | The retry loop ends; it returns nothing exactly when every current weight is zero, never a zero-weight item, and only brings stored weights up to date. |
| Feed.SwappedIs | ethereum/go-ethereum/event/feed.go:225-229 | Deactivating a case takes exactly it out of the active prefix and keeps the list's channels. |
| Feed.WithoutPrefix | ethereum/go-ethereum/event/feed.go:170-174 | Deleting from the whole list deletes from the active prefix exactly when the channel is in it. |
| Feed.SendStep | ethereum/go-ethereum/event/feed.go:157-178 | A delivery keeps: the active prefix holds exactly the channels neither served nor removed. |
| Feed.RemoveStep | ethereum/go-ethereum/event/feed.go:169-174 | A removal keeps it too, and lies in the prefix exactly when the channel has not been served. |
| Feed.Find | ethereum/go-ethereum/event/feed.go:210-217 | Returns the first index of a channel, or -1 exactly when it is absent. |
| Feed.Feed.constructor | ethereum/go-ethereum/event/feed.go:61-66 | A new feed has no subscriber. |
| Feed.Feed.Subscribe | ethereum/go-ethereum/event/feed.go:73-93 | The channel joins the inbox and is served from the next send on. |
| Feed.Feed.StartRemove | ethereum/go-ethereum/event/feed.go:104-115 | A removal ends in the inbox or waits for the send list, which then holds its channel. |
| Feed.Feed.Delete | ethereum/go-ethereum/event/feed.go:220-222 | Closes the gap in place. |
| Feed.Feed.DeleteLeaving | ethereum/go-ethereum/event/feed.go:170-171 | A waiting removal always finds its channel in the send list. |
| Feed.Feed.FinishRemove | ethereum/go-ethereum/event/feed.go:117-124 | Without a send in progress a waiting removal takes its channel out. |
| Feed.Feed.Merge | ethereum/go-ethereum/event/feed.go:136-138 | The inbox is appended to the send list. |
| Feed.Feed.Deliver | ethereum/go-ethereum/event/feed.go:225-229 | The channel of the case is logged as having taken the value, and the case is swapped with the last active one in place. |
| Feed.Feed.SendTo | ethereum/go-ethereum/event/feed.go:157-178 | A delivery goes to a channel that has not had one, and is counted once. |
| Feed.Feed.TrySends | ethereum/go-ethereum/event/feed.go:154-163 | The fast path delivers to some channels, each once. |
| Feed.Feed.Select | ethereum/go-ethereum/event/feed.go:167-178 | A select delivers to one active channel or carries out one waiting removal. |
| Feed.Feed.Serve | ethereum/go-ethereum/event/feed.go:151-179 | The loop ends under every interleaving, with only the removal case left. |
| Feed.Feed.Send | ethereum/go-ethereum/event/feed.go:129-187 | The deliveries of a send go to every channel subscribed at the merge, once, unless it was removed first; the count is their number; the list is left without the removed; each removal that arrived is carried out or still waits. |
| SectionIndex.ReadingIsRun | ethereum/go-ethereum/core/chain_indexer.go:348-361 | Whatever the database returned while it changed, a section that was read is a parent-linked run of exactly its headers. |
| SectionIndex.OnePath | ethereum/go-ethereum/core/chain_indexer.go:402-427 | All section heads lie on the ancestor path of the last one, at the last block numbers of their sections. |
| SectionIndex.CompleteIff | ethereum/go-ethereum/core/chain_indexer.go:234-246 | A section counts as complete at a head exactly if its last block has the required confirmations. |
| SectionIndex.KnownIff | ethereum/go-ethereum/core/chain_indexer.go:218-257 | After notifications section k is known exactly if it was, and no reorg reached it, or a new head completed it, and no later reorg reached it. |
| SectionIndex.KnownKept | ethereum/go-ethereum/core/chain_indexer.go:218-257 | Without a reorg the known sections do not become fewer, without a notification they do not change. |
| SectionIndex.KeptIff | ethereum/go-ethereum/core/chain_indexer.go:222-232 | A section survives notifications exactly when no reorg goes back to or before its last block. |
| SectionRace.Emptied | ethereum/go-ethereum/core/chain_indexer.go:338-345 | Beside harmless notifications every schedule of the unlocked rollback ends with an empty index. |
| SectionRace.Broken | ethereum/go-ethereum/core/chain_indexer.go:338-345 | Beside any others some schedule ends with an index out of order. |
| SectionRace.SurvivesIff | ethereum/go-ethereum/core/chain_indexer.go:402-414 | The index is in order after every interleaving of the rollback and the notifications, one read or write at a time, if and only if the notifications are harmless. |
| SectionRace.CountOutlivesHeads | ethereum/go-ethereum/core/chain_indexer.go:402-414 | Three sections and a reorg to section 1: a schedule leaves the persisted count 1 with no section and no head behind it. |
| ChainIndexer.HeadStays | ethereum/go-ethereum/core/chain_indexer.go:287-301 | The head before a section is still the same at the end exactly when no reorg reached below the section, also for section 0. |
| ChainIndexer.StaleIff | ethereum/go-ethereum/core/chain_indexer.go:292-303 | A turn that reads a section while the chain is reorganised completes it exactly if the common ancestor is at or above its first block, and stores a stale head exactly if the fork lies within the section. |
| ChainIndexer.StaleSection | ethereum/go-ethereum/core/chain_indexer.go:292-303 | Sections of two blocks and a fork right after genesis: section 0 is completed with a head off the chain. |
| ChainIndexer.ChainIndexer.constructor | ethereum/go-ethereum/core/chain_indexer.go:93-109 | Loading a consistent database gives a consistent indexer. |
| ChainIndexer.ChainIndexer.SetValidSections | ethereum/go-ethereum/core/chain_indexer.go:402-414 | The count is written and exactly the heads from it up to the old count are dropped. |
| ChainIndexer.ChainIndexer.NewHead | ethereum/go-ethereum/core/chain_indexer.go:218-257 | A reorg lowers known and stored sections to the one it reaches and drops exactly the heads above; a new head raises the known ones to the confirmed count. |
| ChainIndexer.ChainIndexer.Notify | ethereum/go-ethereum/core/chain_indexer.go:218-257 | A series of notifications keeps the index in order, drops exactly the sections reached and gives the known ones that the notifications determine. |
| ChainIndexer.ChainIndexer.Advance | ethereum/go-ethereum/core/chain_indexer.go:402-414 | One read or write of the rollback loop on a field or the database, lowering and dropping in two each, a zero count wrapping. |
| ChainIndexer.ChainIndexer.RollBack | ethereum/go-ethereum/core/chain_indexer.go:218-257 | The rollback without the lock and the notifications, taking turns in any order, give the run of their single accesses. |
| ChainIndexer.ChainIndexer.ProcessSection | ethereum/go-ethereum/core/chain_indexer.go:338-367 | Returns the head of the linked run read, or an error; a failed reset rolls back beside the notifications. |
| ChainIndexer.ChainIndexer.Finish | ethereum/go-ethereum/core/chain_indexer.go:298-318 | The section is completed exactly if it was read and its predecessor is still in place. Completing it keeps the known sections and moves the cascaded head to its end; otherwise the known sections fall back to the stored ones. |
| ChainIndexer.ChainIndexer.Update | ethereum/go-ethereum/core/chain_indexer.go:274-330 | A turn completes the next section exactly when backend, reads and notifications allow it, and then knows the sections that the notifications alone leave known. Heads exist exactly below the stored count, the persisted count agrees and consecutive heads are joined by a run of sectionSize headers after every turn whose reset succeeds, or fails beside harmless notifications. |
| ChainIndexer.TurnCompletes | ethereum/go-ethereum/core/chain_indexer.go:274-330 | A turn that nothing disturbs and that reads the path of a header completes its section. |
| ChainIndexer.CatchUp | ethereum/go-ethereum/core/chain_indexer.go:274-330 | k such turns store min(known, stored + k) sections: none that is known is forgotten. |
| BinaryHeap.RootLeast | ethereum/go-ethereum/core/tx_list.go:30-50 | The first element of a heap is least. |
| BinaryHeap.Init | ethereum/go-ethereum/core/tx_list.go:114-118 | Any list becomes a heap of the same elements. |
| BinaryHeap.Push | ethereum/go-ethereum/core/tx_list.go:75-76 | Adds one element and keeps the heap. |
| BinaryHeap.Pop | ethereum/go-ethereum/core/tx_list.go:89-90 | Takes the least element out and keeps the heap. |
| BinaryHeap.Remove | ethereum/go-ethereum/core/tx_list.go:158-164 | Takes the element at an index out and keeps the heap. |
| TxSortedMap.FlatUnique | ethereum/go-ethereum/core/tx_list.go:203-216 | There is one nonce-sorted list of the contents. |
| TxSortedMap.FlatForward | ethereum/go-ethereum/core/tx_list.go:93-96 | Slicing as many entries off the front of the cache as were removed leaves the sorted rest. |
| TxSortedMap.Sort | ethereum/go-ethereum/core/tx_list.go:135-136 | Sorts the nonces. |
| TxSortedMap.TxSortedMap.constructor | ethereum/go-ethereum/core/tx_list.go:59-64 | An empty map satisfies the invariant. |
| TxSortedMap.TxSortedMap.Put | ethereum/go-ethereum/core/tx_list.go:73-79 | The map gains the transaction; the heap holds each nonce once. |
| TxSortedMap.TxSortedMap.Forward | ethereum/go-ethereum/core/tx_list.go:84-98 | Keeps exactly the nonces from the threshold on, returns the others in order, and the sliced cache is the sorted rest. |
| TxSortedMap.TxSortedMap.Filter | ethereum/go-ethereum/core/tx_list.go:102-123 | Removes exactly what the filter names, each listed once; heap and cache stay right. |
| TxSortedMap.TxSortedMap.Cap | ethereum/go-ethereum/core/tx_list.go:127-148 | Keeps the lowest nonces up to the limit, returns the others from the top, and the sliced cache is the sorted rest. |
| TxSortedMap.TxSortedMap.Remove | ethereum/go-ethereum/core/tx_list.go:152-169 | Removes exactly the nonce and reports whether it was there. |
| TxSortedMap.TxSortedMap.Ready | ethereum/go-ethereum/core/tx_list.go:178-193 | Takes the run of consecutive nonces from the lowest up to the first gap, unless it begins above the start. |
| TxSortedMap.TxSortedMap.Flatten | ethereum/go-ethereum/core/tx_list.go:203-216 | Returns the nonce-sorted contents, cached or not. |
| TxList.CappedFilter | ethereum/go-ethereum/core/tx_list.go:287-289 | Where the cost cap covers all costs the full filter removes nothing, so the short cut is right. |
| TxList.AffordableContiguous | ethereum/go-ethereum/core/tx_list.go:286-309 | A strict list without gaps has none after filtering. |
| TxList.CutContiguous | ethereum/go-ethereum/core/tx_list.go:273-315 | Nor after dropping its front or its back. |
| TxList.RunTakesAll | ethereum/go-ethereum/core/tx_list.go:178-193 | The run taken from a list without gaps is all of it. |
| TxList.ReplacesIff | ethereum/go-ethereum/core/tx_list.go:254-260 | A price replaces another exactly if it is higher and 100 times it, but for rounding, reaches the old one times 100 plus the bump. |
| TxList.TxList.constructor | ethereum/go-ethereum/core/tx_list.go:231-237 | An empty list satisfies the invariant. |
| TxList.TxList.Add | ethereum/go-ethereum/core/tx_list.go:250-268 | A transaction is accepted exactly if its nonce is free or it outbids the old one by the bump; the cap rises to its cost at most. |
| TxList.TxList.Forward | ethereum/go-ethereum/core/tx_list.go:273-275 | Keeps exactly the nonces from the threshold on; the cap still bounds all costs; no gap appears. |
| TxList.TxList.Filter | ethereum/go-ethereum/core/tx_list.go:286-309 | The result is that of the full filter, in a strict list also without anything after a removed nonce; both returned lists are exact; the cap falls to the limit and still bounds all costs; no gap appears. |
| TxList.TxList.Cap | ethereum/go-ethereum/core/tx_list.go:313-315 | Keeps the lowest nonces up to the limit; the cap still bounds all costs; no gap appears. |
| TxList.TxList.Remove | ethereum/go-ethereum/core/tx_list.go:320-331 | Removes the nonce and, in a strict list, all above it; no gap appears. |
| TxList.TxList.Ready | ethereum/go-ethereum/core/tx_list.go:340-342 | Takes the run from the lowest nonce on, all of a list without gaps, unless it begins above the start; the cap still bounds all costs. |
| TxPricedList.PopKeeps | ethereum/go-ethereum/core/tx_list.go:454-468 | Popping the cheapest entry keeps all others, none of them cheaper. |
| TxPricedList.SharedPop | ethereum/go-ethereum/core/tx_list.go:430-446 | Each entry popped goes to exactly one of the lists to save, to drop and of stale ones. |
| TxPricedList.DroppedOnce | ethereum/go-ethereum/core/tx_list.go:480-503 | Where transactions have one entry each, none is dropped twice. |
| TxPricedList.TxPricedList.constructor | ethereum/go-ethereum/core/tx_list.go:390-395 | An empty heap tracks an empty pool. |
| TxPricedList.TxPricedList.Put | ethereum/go-ethereum/core/tx_list.go:398-400 | The transaction gets an entry, also if it has one; entries stay single exactly if it had none. |
| TxPricedList.TxPricedList.Removed | ethereum/go-ethereum/core/tx_list.go:405-419 | Until a quarter may be stale only the count moves; then the heap is rebuilt from the pool. |
| TxPricedList.TxPricedList.Cap | ethereum/go-ethereum/core/tx_list.go:423-450 | Drops exactly the live remote transactions below the threshold, each once if entries are single; every live entry is dropped or kept; the stale ones popped are uncounted. |
| TxPricedList.TxPricedList.Underpriced | ethereum/go-ethereum/core/tx_list.go:454-476 | Despite stale entries the answer is that of a scan of the pool; as many stale entries go as are uncounted. |
| TxPricedList.TxPricedList.Discard | ethereum/go-ethereum/core/tx_list.go:480-503 | Drops only live remote transactions, none dearer than a remote one kept, as many entries as asked unless no remote one is left; every live entry is dropped or kept; the stale ones popped are uncounted; the dropped are distinct if entries are single. |
| TxPricedList.ListedTwice | ethereum/go-ethereum/core/tx_pool.go:839-840 | A transaction put twice is dropped twice. |
| Distributor.OfferToAll | ethereum/go-ethereum/les/distributor.go:192-213 | A request is offered to exactly the peers that can serve it and have no earlier offer. |
| Distributor.GrantedIff | ethereum/go-ethereum/les/distributor.go:192-213 | A peer is granted a request exactly if it can queue, can be sent that request and none before it. |
| Distributor.NextRequest | ethereum/go-ethereum/les/distributor.go:178-227 | The result is a request granted to its peer, with the shortest wait of all grants, and there is none exactly if no peer can be sent anything; requests are dropped exactly while at the front with no peer to serve them. |
| Distributor.Position | ethereum/go-ethereum/les/distributor.go:242-251 | A request goes behind all with a smaller order. |
| Distributor.RequestDistributor.constructor | ethereum/go-ethereum/les/distributor.go:74-86 | An empty queue is in order. |
| Distributor.RequestDistributor.Queue | ethereum/go-ethereum/les/distributor.go:233-260 | The queue stays strictly increasing; a new request gets the next order and goes last. |
| Distributor.RequestDistributor.Remove | ethereum/go-ethereum/les/distributor.go:265-285 | Exactly the request leaves the queue, if it is there. |
| Distributor.RequestDistributor.Next | ethereum/go-ethereum/les/distributor.go:178-227 | The queue stays in order and loses only front requests that no registered peer can serve; the result is a grant with the shortest wait. |
| AbiWords.ToNatBigEndian | third_part/abi/numbers.go:48-50 | A number that fits comes back from its bytes. |
| AbiWords.ToSignedBigEndian | third_part/abi/unpack.go:39-46 | A signed number that fits comes back from its two's complement. |
| AbiFormat.Digit | third_part/abi/numbers.go:48-50 | Each byte of a number is its digit to the base 256, also of a negative number. |
| AbiFormat.NumberFormat | third_part/abi/pack.go:38-39 | A packed number is its 256-bit two's complement, byte by byte. |
| AbiFormat.AddressFormat | third_part/abi/pack.go:42-47 | A packed address is twelve zeros and the address, the word of its number. |
| AbiFormat.BoolFormat | third_part/abi/pack.go:48-52 | A packed boolean is 31 zeros and 0 or 1. |
| AbiFormat.FixedFormat | third_part/abi/pack.go:58-62 | A packed fixed byte string or function is its bytes and zeros up to 32. |
| AbiFormat.BytesFormat | third_part/abi/pack.go:29-32 | A packed byte string or string is its length, its bytes and zeros up to the next multiple of 32. |
| AbiFormat.ArrayFormat | third_part/abi/type.go:181-190 | The elements of a packed array stand one after another. |
| AbiFormat.SliceFormat | third_part/abi/type.go:181-197 | A packed slice of single words is its length and 32 bytes for each element. |
| AbiFormat.IntegerRead | third_part/abi/unpack.go:29-50 | Whatever the word, integers of 8, 16, 32 and 64 bits keep its low bits, signed or not, and all others the whole word. |
| AbiFormat.BoolRead | third_part/abi/unpack.go:53-67 | Only the words 0 and 1 are booleans. |
| AbiFormat.FunctionRead | third_part/abi/unpack.go:71-81 | Only words that end in eight zeros are functions. |
| AbiFormat.RawRead | third_part/abi/unpack.go:84-94 | An address is the end of any word, a fixed byte string its beginning. |
| AbiFormat.FoundIff | third_part/abi/unpack.go:200-229 | Contents are found through an offset exactly if they lie within the data. |
| AbiCodec.IntRoundTrip | third_part/abi/unpack.go:29-50 | A packed number comes back if and only if it is in the range of the machine type, or not negative and within a word for a big integer. |
| AbiCodec.BoolWord | third_part/abi/unpack.go:53-67 | A packed boolean is read back. |
| AbiCodec.WordRoundTrip | third_part/abi/pack.go:36-66 | A one-word value of its type is read back from its word if and only if a number in it is in range. |
| AbiCodec.LengthPrefixPointsTo | third_part/abi/unpack.go:200-229 | Contents found through an offset lie within the data. |
| AbiCodec.StaticRoundTrip | third_part/abi/unpack.go:152-197 | A static value, arrays of any depth included, is read back from where it stands. |
| AbiCodec.EmptyRoundTrip | third_part/abi/unpack.go:108-148 | A value without width (an array with no elements on some level) that stands in data is read back exactly where enough data follows. |
| AbiCodec.PointsTo | third_part/abi/unpack.go:200-229 | An offset leads to the length and contents that stand where it points. |
| AbiCodec.PrefixedRoundTrip | third_part/abi/unpack.go:152-197 | A string, byte string or slice of single words is read back through its offset. |
| AbiCodec.Pack | third_part/abi/type.go:173-198 | Packing succeeds exactly for values of the type without an empty list of arrays and gives their encoding, whose bytes the rows of `AbiFormat` state; a value of the type with such a list panics. |
| AbiCodec.PackingExact | third_part/abi/type.go:173-198 | Which values are packed, refused or panic, for all types and values. |
| AbiCodec.CheckTyped | third_part/abi/error.go:41-61 | The type check of a value of the type fails only by a panic, and not without an empty list of arrays. |
| AbiCodec.EmptyOfArrays | third_part/abi/error.go:53-54 | Every empty list of arrays panics. |
| AbiCodec.StaticPackable | third_part/abi/error.go:41-61 | Fitting values of readable types never panic. |
| AbiCodec.PackAll | third_part/abi/type.go:181-190 | The loop appends the encodings of the elements in order; the first failure, error or panic, decides. |
| AbiCodec.GetFullElemSize | third_part/abi/unpack.go:96-105 | The size of an element counts all array levels. |
| AbiCodec.ForEachUnpack | third_part/abi/unpack.go:108-148 | The loop reads the elements at their distance, or fails if one fails or the data is short. |
| AbiCodec.ToGoType | third_part/abi/unpack.go:152-197 | Decoding follows the type, with an error wherever the data is short or malformed. |
| AbiArguments.NonIndexedAll | third_part/abi/argument.go:71-79 | Without indexed arguments all are decoded. |
| AbiArguments.InputOffset | third_part/abi/argument.go:244-251 | The encoder's reckoning of the head length, which counts an array by its outermost size. |
| AbiArguments.PackArguments | third_part/abi/argument.go:232-277 | Packing refuses a wrong count, fails with the first value that is refused or panics, and otherwise gives heads, with offsets, followed by tails. |
| AbiArguments.GetArraySize | third_part/abi/argument.go:183-194 | The number of elements counts all array levels. |
| AbiArguments.UnpackValues | third_part/abi/argument.go:199-223 | Each argument is decoded where the heads before it end; the first failure fails all. |
| AbiArguments.FitArgsTyped | third_part/abi/argument.go:252-258 | Values of the right types with numbers in range are never refused for their type. |
| AbiArguments.HeadsSize | third_part/abi/argument.go:252-271 | The heads take the room that the decoder reckons with. |
| AbiArguments.InlinePlaced | third_part/abi/argument.go:264-268 | An argument without a length stands where the heads before it end. |
| AbiArguments.OffsetPlaced | third_part/abi/argument.go:259-263 | In the place of any other stands the head length that the encoder reckons plus the length of the tails before. |
| AbiArguments.TailPlaced | third_part/abi/argument.go:259-271 | Its encoding stands where that leads, if the reckoning is right. |
| AbiArguments.ArgRoundTrip | third_part/abi/argument.go:199-277 | One argument of a list that meets the condition comes back. |
| AbiArguments.RoundTrip | third_part/abi/argument.go:199-277 | All values of such a list come back from their encoding. |
| AbiArguments.PackUnpack | third_part/abi/argument.go:199-277 | Packing and then unpacking the non-indexed arguments gives the values back for every list that meets the condition. |
| AbiLosses.DeepLost | third_part/abi/unpack.go:152-229 | A dynamic value written in place is not read back: its length is taken for an offset into the zeros behind it. |
| AbiLosses.MixedLost | third_part/abi/unpack.go:131-148 | Two elements of several words in a slice are not read back one word apart. |
| AbiLosses.TooFar | third_part/abi/unpack.go:200-229 | Zeros are not read back through an offset that leads too far. |
| AbiOffsets.OneLevelAgrees | third_part/abi/argument.go:244-251 | Where arrays hold no arrays encoder and decoder reckon the same head length. |
| AbiOffsets.Misplaced | third_part/abi/argument.go:244-271 | Where the reckonings differ, in either direction, and an offset is needed, concrete values do not come back. |
| AbiOffsets.NestedLost | third_part/abi/argument.go:244-251 | Types uint256[2][3] and bytes: the heads take 224 bytes, the encoder reckons with 128, and values are lost. |
| AbiOffsets.DynamicArrayLost | third_part/abi/argument.go:252-271 | Every list with an array of dynamic values loses some. |
| AbiOffsets.EmptySliceLost | third_part/abi/unpack.go:108-115 | Every list with a slice of elements without width loses some, if its offsets are right. |
| AbiOffsets.WideSliceLost | third_part/abi/unpack.go:131-148 | Every list with a slice of static elements of several words loses some, if its offsets are right. |
| AbiOffsets.DynamicSliceLost | third_part/abi/type.go:181-190 | Every list with a slice of dynamic elements loses some, if its offsets are right. |
| AbiOffsets.CrampedLost | third_part/abi/unpack.go:152-155 | Every list whose least encoding ends too early for an argument without width loses some. |
| AbiOffsets.IndexedLost | third_part/abi/argument.go:199-223 | Every list with an indexed argument loses some, since it is packed but not decoded. |
| AbiOffsets.ArraySliceLost | third_part/abi/error.go:53-54 | Every list with a slice of arrays loses its empty value by a panic. |
| AbiOffsets.WidthlessLost | third_part/abi/error.go:53-54 | Every list with an array that has no width and holds an empty list of arrays panics on zeros. |
| AbiOffsets.EmptySlicePanics | third_part/abi/error.go:53-54 | The empty slice of type uint256[1][] panics. |
| AbiOffsets.ZeroArrayPanics | third_part/abi/error.go:53-54 | All values of types uint256[2][0], uint256 panic. |
| AbiOffsets.FaithfulIff | third_part/abi/argument.go:199-277 | For all lists of types with fixed byte strings of 1 to 32 bytes: all fitting values are packed and come back if and only if no argument is indexed, every type is readable, no offset is needed or the two reckonings agree, and enough data follows what has no width. |
| AbiOffsets.OneLevelFaithful | third_part/abi/argument.go:199-277 | Lists of readable types without indexed arguments whose arrays hold no arrays are always carried faithfully. |
| SweepFee.CoversRound | ethereum/go-ethereum/common/lkfee.go:38-43 | The count of coins is the least that covers the amount. |
| SweepFee.FeeIs | ethereum/go-ethereum/common/lkfee.go:35-53 | The fee of an amount that takes n coins is 50,000 gas times n, but 500,000 at least and 5*10^9 at most. |
| SweepFee.FeeStep | ethereum/go-ethereum/common/lkfee.go:35-53 | Over one coin the fee does not fall and rises by at most one step. |
| SweepFee.TotalMono | ethereum/go-ethereum/common/lkfee.go:56-60 | Amount plus fee grows strictly with the amount. |
| SweepFee.CalNewFee | ethereum/go-ethereum/common/lkfee.go:35-53 | With the least count of coins that covers the amount, the fee is the rate times the count, within its limits. |
| SweepFee.ChangeBound | ethereum/go-ethereum/common/lkfee.go:88-96 | What is left beside the largest amount is at most one fee step. |
| SweepFee.CalAllFee | ethereum/go-ethereum/common/lkfee.go:55-86 | The bisection ends with the largest amount that the balance covers with its fee. |
| SweepFee.CalSweepBalanceFee | ethereum/go-ethereum/common/lkfee.go:88-96 | Above the least fee: the largest coverable amount, amount + fee + change = balance, 0 <= change <= 5*10^15; otherwise an error. |
| ValidatorChange.LowerAll | third_part/txEncrypt/validator_tx.go:122-128 | The powers under lower-case keys and their sum. |
| ValidatorChange.LoweredUnique | third_part/txEncrypt/validator_tx.go:122-128 | The lowered powers do not depend on map order. |
| ValidatorChange.AddChanges | third_part/txEncrypt/validator_tx.go:130-148 | The change is the sum of all differences to present powers, or an error at a negative power. |
| ValidatorChange.CountSigned | third_part/txEncrypt/validator_tx.go:154-169 | Counting stops early exactly when the valid signatures, each spelling of a key counted by itself, add up to more than two thirds, in any order. |
| ValidatorChange.ParseValidatorTx | third_part/txEncrypt/validator_tx.go:89-176 | The verdict is the decision on the sets involved and does not depend on map order, also where a signer appears under several spellings. |
| ValidatorChange.AcceptedIff | third_part/txEncrypt/validator_tx.go:89-176 | A batch is accepted if and only if there are validators, all items are sane, three times the change plus three is at most the power, and the signatures count more than two thirds. |
| ValidatorChange.RefusedIff | third_part/txEncrypt/validator_tx.go:89-176 | Which refusal each other batch gets. |
| ValidatorChange.BigChangeIff | third_part/txEncrypt/validator_tx.go:129-152 | A sane batch is refused for its change if and only if the power is less than three times the change plus three. |
| ValidatorChange.ThirdRefused | third_part/txEncrypt/validator_tx.go:129-152 | Three validators of power 3, one of them to leave: refused. |
| ValidatorChange.QuorumsShare | third_part/txEncrypt/validator_tx.go:154-169 | Two quorums of one validator set share more than a third of its power. |
| ValidatorChange.SpelledSum | third_part/txEncrypt/validator_tx.go:154-169 | Spellings count at least what their validators weigh, and exactly that if none is spelled twice. |
| ValidatorChange.EnoughIsQuorum | third_part/txEncrypt/validator_tx.go:154-169 | A quorum of signers is always enough; what is enough is a quorum if no validator is spelled twice or all sign. |
| ValidatorChange.QuorumIff | third_part/txEncrypt/validator_tx.go:154-169 | Being enough means a quorum of validators, whatever their powers, if and only if no validator signs under two spellings or all sign. |
| ValidatorChange.AcceptedShare | third_part/txEncrypt/validator_tx.go:150-176 | Two accepted batches that meet that condition have signers with more than a third of the power in common. |
| ValidatorChange.NothingShared | third_part/txEncrypt/validator_tx.go:154-169 | Powers 2 and 3: each validator alone, under two spellings, gets a batch accepted, so two accepted batches share no signer. |
| ValidatorChange.AfterDiff | third_part/txEncrypt/validator_tx.go:130-148 | The powers after the batch differ in sum by no more than what was voted on, even if a validator is named twice. |
| ValidatorChange.ChangeExact | third_part/txEncrypt/validator_tx.go:130-148 | They differ by exactly that if no validator is named twice. |
| ValidatorChange.QuorumsMeet | third_part/txEncrypt/validator_tx.go:129-152 | Any quorum before an accepted batch meets any quorum after it. |

## Left out

- LevelDB, RLP, JSON, logging, metrics, timers, RPC and peer-to-peer code: foreign or plumbing; databases are maps.
- Header and block caches: a cache that agrees with the database does not change what is read.
- Header seals, block execution, state, receipts and events: header verification enters only as "the number follows a known parent".
- `RollbackBlock`, `SetHead`, fast sync and future blocks: they do not keep the store parent-closed or only add plumbing.
- Index entries above a shorter new block head: block writes leave them in place; they name stored blocks and, unless a block is written twice, do not descend from the head.
- HeaderChain.HeaderChain.constructor: starts from genesis; the head that an earlier process has persisted is not loaded.
- BlockChain.BlockChain.constructor: starts from genesis; the last state of an existing database is not loaded.
- `ReadFrom`, the length prefix of `Sum` and the tree pool of the block hasher: plumbing around the writes and the sum.
- BmtWrapped.ServesIff: the base hash is taken to be collision-free on byte strings of one length, as hashes are elsewhere; `BmtWrapped.Spoils` names the collision otherwise.
- BmtHasher.NewTree: nodes are keyed by height and index instead of being linked objects.
- PendingLimit.PopSpammer: the priority is the exact length, not a 32-bit float of it.
- PendingLimit.TxPool.EqualisePending: list lengths are compared exactly, while the source ranks spammers by a 32-bit float; pending nonces are kept for the pooled accounts only.
- Queue limits, promotion and demotion in the transaction pool: they add no harder property.
- Whole-pool conservation and exact stale counts: the source does not maintain them.
- WeightedSelect.WeightedRandomSelect.SetWeight: weights are not negative, as `les` gives them.
- WeightedSelect.Insert: tree nodes are values that are rebuilt, not objects changed in place; weights are unbounded and not negative, as the source's callers give them.
- WeightedSelect.WeightedRandomSelect.Choose: the distribution over several rounds with changing weights is not stated, only that of one round.
- Feed.Feed.Subscribe: a channel that is already subscribed is not subscribed again.
- Feed.Feed.Send: the value sent, channel types and the error channel are not modelled; a channel is subscribed once at a time.
- ChainIndexer.ChainIndexer.NewHead: child indexers are not notified.
- ChainIndexer.ChainIndexer.Update: `AddKnownSectionHead`, child indexers, throttling and crashes between two database writes are not modelled; block numbers are unbounded except where a section number, a count or a block count wraps. Each read or write of a field or of the database is one step; memory reordering is not modelled.
- TxSortedMap.TxSortedMap.Ready: nonces are unbounded, so a run never wraps.
- TxPricedList.TxPricedList.Put: a hash is taken to belong to one transaction.
- TxList.TxList.Ready: nonces are unbounded, so a run never wraps.
- Distributor.RequestDistributor.Queue: a request is queued once at a time; result channels, sleeping and the random choice among offers without a wait are not modelled.
- AbiCodec.Pack: Go types are modelled by their shape, so the element kind of an empty list is not checked; the source also accepts byte arrays of other lengths for addresses and functions.
- Parsing of ABI type strings and unpacking into structs.
- AbiOffsets.FaithfulIff: fixed byte strings have 1 to 32 bytes, as in the Solidity Contract ABI Specification; types are small enough for the values that show a loss to have 63-bit offsets.
- ValidatorChange.ParseValidatorTx: powers are unbounded, decoding is not modelled, and nothing is stated for negative powers or for two validators of the present set whose keys differ in case only, which the caller's hexadecimal encoding rules out.
- `les/fetcher.go`, console, dashboard, account manager, genesis and configuration codecs: user interface, plumbing or easy members.
