# A verified model of Cuprate's hard cores

Cuprate is a Monero node written in Rust. This Dafny project models five of its cores and proves
what they are for. `dafny verify dfyconfig.toml` checks all of it.

- **CryptoNight-R programs** (`RandomMath*.dfy`): the generator that schedules random instructions on
  three ALUs, filters redundant ones and lengthens the result, and the interpreter that executes it.
- **BLAKE-256** (`Blake256.dfy`, `Blake256Hasher.dfy`): the streaming hasher with its buffer, wrapping
  counter and three padding branches, against "pad, cut into blocks, fold the compression function".
- **Consensus context** (`Difficulty*.dfy`, `NextDifficulty.dfy`, `AltChains.dfy`, `ContextTask.dfy`):
  the difficulty window that is advanced, rolled back, cloned for alternative chains and extended
  speculatively, against a rebuild from the headers of the right chain.
- **Transactions and blocks** (`Transactions.dfy`, `TransactionVerifier.dfy`, `KeyImages.dfy`,
  `BlockAdmission.dfy`): cached verdicts that let later calls skip work, key images, and block
  admission alone and in batches, over every run with forks changing and the chain reorganising.
- **Arithmetic cores** (`Pruning.dfy`, `IntegerMath.dfy`, `KeySchedule.dfy`, `SlowHash.dfy`,
  `SlowHashLoop.dfy`, `SlowHashOps.dfy`): pruning stripes, the integer square-root fix-up, the AES-256 key expansion and
  the memory-hard loop with its variants.

Code that changes things step by step is modelled as classes, arrays and loops whose contracts name a
function of the old state; the theorems are about those functions. Compression functions, S-boxes,
the AES round, consensus checks and database answers are function-valued parameters, so each result
holds for every choice of them.

## Where a property fails

Some things the code or its documentation promises are false of the code. Each has a lemma at a failing
input and a lemma that says exactly when it holds.

- An empty `update` on a partly filled buffer drops the buffered bytes (`EmptyChunkDropsBytes`). Any
  list of chunks is absorbed whole if and only if every empty chunk meets an empty buffer
  (`AbsorbedExactly`).
- The packed redundancy test is sound but refuses more than it must, in a program the first phase can
  reach (`FilterOverRefuses`); `FilterExactly` says what it refuses.
- `get_next_pruned_block` is documented to give an error for heights out of range, and otherwise the
  next pruned block, or nothing if there is none. `DocumentedExactlyWhen` covers every pair of
  heights. Out of range, the error comes if and only if the block is kept and below the tip
  (`ErrorNotGiven` has two inputs that pass). In range, the answer is as documented if and only if the
  height is a tip block, is pruned itself, or lies in a stripe that ends before the tip blocks and is
  not the only one (`KeptBlockGiven` has an input that fails). What is returned in every case is
  `NextPrunedExactly`.
- A seed with one stripe compresses to the number that means "not pruned"; a valid seed survives if
  and only if it has two stripes or more (`CompressThenDecompress`).
- With at least two blocks in the window and growing work, the next difficulty is positive if and
  only if the configuration accounts for at least two of them (`PositiveExactly`;
  `NarrowWindowAsksNothing` has a configuration that asks for nothing).
- A cached verdict is documented to stay valid while its block is in the chain and its lock is open,
  with the youngest time-based lock kept. The code keeps the least one. Re-testing it decides the whole
  ring, at every clock and on every longer chain, if and only if no time-based lock of the ring is
  later than both it and the block time (`RetestCoversRing`; `UncoveredLockAccepted` has a ring that
  is accepted again although its checks would fail). Every lock that this condition covers is open
  whenever a transaction is accepted (`FullVerify`, through `CoveredBy`).
- The square-root fix-up gives the root if and only if the estimate is within one of it and at most
  3558067407 (`FixUpExactly`, for every 64-bit estimate; `LargeEstimateFails` is the failing family).

## Model

| member | source | states |
|---|---|---|
| `RandomMathProgram.LongestChainIsLongest` | cryptonight/src/hash_v4.rs:271-274 | The recurrence the generator keeps per register is the length of the longest data-dependency chain that ends there: one of that length exists and none is longer |
| `RandomMathProgram.Tabled` | cryptonight/src/hash_v4.rs:84-97 | Latencies, ASIC latencies and ALU counts are those of the tables, by opcode number |
| `RandomMathSchedule.NoSlotUsedTwice` | cryptonight/src/hash_v4.rs:221-251 | In a valid schedule no ALU is occupied by two instructions in one cycle, two-cycle additions included |
| `RandomMathSchedule.RefusesExactly` | cryptonight/src/hash_v4.rs:203-219 | The packed-word test holds if and only if the last writer of the destination has the same non-MUL opcode and the same name for its source |
| `RandomMathSchedule.SameIdExactly` | cryptonight/src/hash_v4.rs:276-283 | Two source names agree if and only if both are constants, or it is one register left unwritten in between, or an unwritten register's number meets an instruction's index |
| `RandomMathSchedule.FilterExactly` | cryptonight/src/hash_v4.rs:203-219 | What the test refuses, in terms of the program alone |
| `RandomMathSchedule.FilterIsSound` | cryptonight/src/hash_v4.rs:203-219 | An instruction that passes the rotation test and the packed test cannot be folded into the previous writer of its destination |
| `RandomMathSchedule.FilterOverRefuses` | cryptonight/src/hash_v4.rs:203-219 | A scheduled program without redundancy, and an instruction with a free slot that is refused although it cannot be folded |
| `RandomMathStream.ByteStream.CheckData` | cryptonight/src/hash_v4.rs:53-59 | The digest is replaced by its own digest and reading restarts at 0 exactly when the bytes asked for are not left |
| `RandomMathStream.SeedExactly` | cryptonight/src/hash_v4.rs:99-102 | The first eight bytes of the seed stand for the block height, byte 20 is 218 and the others are 0 |
| `RandomMathStream.DecodeExactly` | cryptonight/src/hash_v4.rs:158-201 | Which opcode each value of the low three bits gives, how the byte is rebuilt from the instruction, and that R8 replaces the source exactly when ADD, SUB or XOR would take one register twice |
| `RandomMathGenerator.FindSlot` | cryptonight/src/hash_v4.rs:221-251 | A slot found is free, on an ALU the opcode may use, no earlier than asked and in range; a failure means no such slot exists |
| `RandomMathGenerator.FreeExactly` | cryptonight/src/hash_v4.rs:221-251 | The ALU table and the rotation count call a slot free if and only if the instruction can start there next to those already placed |
| `RandomMathGenerator.FiltersAgree` | cryptonight/src/hash_v4.rs:203-219 | The tests on the packed words agree with the same tests read off the program |
| `RandomMathGenerator.Schedule` | cryptonight/src/hash_v4.rs:221-259 | The cycle found is the first at which the program and its slots leave an ALU free; the draw is skipped if and only if its register would idle for more than 7 cycles, else late if and only if it could not end within 45, else placed there on the highest free ALU |
| `RandomMathRun.FateUnique` | cryptonight/src/hash_v4.rs:203-259 | Program, slots and instruction decide whether a draw is skipped, late, or placed, and where |
| `RandomMathGenerator.PlaceDescribes` | cryptonight/src/hash_v4.rs:261-297 | Committing an instruction keeps latency, ASIC latency, packed words, rotation marks and ALU table equal to what the longer program determines |
| `RandomMathGenerator.PhaseOne` | cryptonight/src/hash_v4.rs:138-304 | The run of phase one: each draw is the next of the byte stream and meets its one fate, and the loop ends as soon as all four registers are busy to the end, 64 draws were late, 256 were made or 60 were placed; the program is what was placed, and all tables describe it |
| `RandomMathRun.PhaseOneUnique` | cryptonight/src/hash_v4.rs:138-304 | From one place in the stream there is only one such run: no draw is kept, dropped or repeated otherwise, and it can stop nowhere else |
| `RandomMathGenerator.PhaseTwo` | cryptonight/src/hash_v4.rs:306-337 | Each instruction appended follows ROR, MUL, MUL from the first register with the longest chain to the first with the shortest, with constant 0 and while no chain has reached 45; it stops full or with a chain of 45, and not before |
| `RandomMathGenerator.LengthenedUnique` | cryptonight/src/hash_v4.rs:306-337 | A phase-one program can be lengthened in only one way |
| `RandomMathGenerator.RandomMathInit` | cryptonight/src/hash_v4.rs:70-356 | The attempts are runs of phase one, each starting in the stream where the last one stopped; all but the last are rejected by the test on R8 and size, and the array holds the last one lengthened, followed by RET |
| `RandomMathInterpreter.V4RandomMath` | cryptonight/src/hash_v4.rs:362-380 | In place, the registers become those of running the instructions before the first RET among the first 70 |
| `RandomMathInterpreter.ApplyBits` | cryptonight/src/hash_v4.rs:369-377 | ROR takes bit `i + src` to place `i` and ROL takes it back, modulo 32; XOR works bit by bit |
| `RandomMathInterpreter.ApplyAddSub` | cryptonight/src/hash_v4.rs:369-377 | SUB undoes ADD but for the constant, and ADD brings in its constant |
| `RandomMathInterpreter.ApplyMul` | cryptonight/src/hash_v4.rs:369-377 | MUL is repeated addition modulo 2^32 |
| `RandomMathInterpreter.RunKeepsConstants` | cryptonight/src/hash_v4.rs:362-380 | A well-formed program leaves R4-R8 unchanged |
| `RandomMathInterpreter.AcceptedRunsExactly` | cryptonight/src/hash_v4.rs:113-380 | Of an accepted program the interpreter runs exactly its instructions, whatever rejected attempts left behind it, and changes only R0-R3 |
| `RandomMathInterpreter.AcceptedHasLongChain` | cryptonight/src/hash_v4.rs:306-345 | An accepted program is full or has a dependency chain of at least 45 cycles into one of R0-R3 |
| `Blake256.AbsorbFollowsDefinition` | cryptonight/src/blake256.rs:84-119 | Absorbing the whole blocks of a message gives the chain value of section 2.1 of the BLAKE SHA-3 proposal, and the two-word counter holds their bits modulo 2^64 |
| `Blake256.OutputWord` | cryptonight/src/blake256.rs:159-164 | Word `i` of the chain value is bytes `4 * i` to `4 * i + 3` of the digest |
| `Blake256.LengthBytesValue` | cryptonight/src/blake256.rs:128-135 | The eight length bytes stand for the message length modulo 2^64 |
| `Bytes.BigEndianIs` | cryptonight/src/blake256.rs:132-164 | The big-endian bytes of a number stand for it modulo 256^count |
| `Blake256Hasher.Hasher.Update` | cryptonight/src/blake256.rs:84-119 | Buffer and chain value after an update are those of the bytes pending and given, cut into blocks |
| `Blake256Hasher.Hasher.Feed` | cryptonight/src/blake256.rs:84-119 | A hasher that holds a message holds it with the chunk added; an empty chunk drops what is buffered |
| `Blake256Hasher.Hasher.Finalize` | cryptonight/src/blake256.rs:122-165 | The digest of the message held, in all three padding branches, although the counter is set back and wraps in between |
| `Blake256Hasher.AbsorbedExactly` | cryptonight/src/blake256.rs:113-118 | The chunks are absorbed whole if and only if no empty chunk meets a partly filled buffer |
| `Blake256Hasher.EmptyChunkDropsBytes` | cryptonight/src/blake256.rs:113-118 | A byte followed by an empty chunk is lost |
| `Blake256Hasher.DigestOf` | cryptonight/src/blake256.rs:167-171 | One-shot hashing gives the digest the definition gives |
| `Blake256Hasher.DigestChunks` | cryptonight/src/blake256.rs:84-165 | For every split, the digest of what was absorbed, and of the whole message when no empty chunk is misplaced |
| `Difficulty.NewBlockIsRebuild` | consensus/context/src/difficulty.rs:180-196 | Adding a block to the window of a chain gives the window of the longer chain |
| `Difficulty.WindowHolds` | consensus/context/src/difficulty.rs:45-117 | The window of a chain is its last `window + lag` blocks, or all but genesis if there are fewer, in order |
| `DifficultyCaching.DifficultyCache.InitFromChainHeight` | consensus/context/src/difficulty.rs:83-117 | The cache built is the window of the chain below the height |
| `DifficultyCaching.DifficultyCache.NewBlockAt` | consensus/context/src/difficulty.rs:180-196 | The whole new state after one block, in place |
| `DifficultyCaching.DifficultyCache.PopBlocksMainChain` | consensus/context/src/difficulty.rs:127-177 | After popping, in the refetch branch and in the rebuild branch, the cache is the window of the shorter chain |
| `DifficultyCaching.Replay` | consensus/context/src/difficulty.rs:83-196 | After any interleaving of additions and removals the cache is what a rebuild gives |
| `NextDifficulty.OrderStatisticOfPermutation` | consensus/context/src/difficulty.rs:289-332 | The order statistics taken after sorting depend only on the multiset of timestamps |
| `NextDifficulty.DivCeilIsLeast` | consensus/context/src/difficulty.rs:289-332 | The rounded-up quotient is the least number of spans that covers the work |
| `NextDifficulty.NextIsLeast` | consensus/context/src/difficulty.rs:289-332 | The difficulty is the least `q` whose product with the time span covers the work done times the block time, 60 seconds at fork 1 and 120 after; the span is between the timestamps of two ranks, given by counting, and 1 if they are equal |
| `NextDifficulty.NextEarly` | consensus/context/src/difficulty.rs:295-301 | A fixed difficulty is the answer; else 1 with at most one block |
| `NextDifficulty.RankedUnique` | consensus/context/src/difficulty.rs:318-322 | Counting the timestamps below and at or below a value determines the value of a rank |
| `NextDifficulty.CumulativeOfTop` | consensus/context/src/difficulty.rs:277-280 | The work reported is that of the top block, and 1 for genesis |
| `NextDifficulty.WindowStartAndEnd` | consensus/context/src/difficulty.rs:335-354 | The accounted part has the right length, lies inside the window, and is off-centre by at most one |
| `NextDifficulty.PositiveExactly` | consensus/context/src/difficulty.rs:289-332 | With growing work and two blocks or more the difficulty is positive if and only if two are accounted for |
| `NextDifficulty.NarrowWindowAsksNothing` | consensus/context/src/difficulty.rs:335-354 | A window that accounts for one block asks for difficulty 0 |
| `NextDifficulty.NextDifficulties` | consensus/context/src/difficulty.rs:217-249 | Entry i is what the cache asks for after really admitting the first i blocks, each at the difficulty asked for before it |
| `NextDifficulty.RunStaysPositive` | consensus/context/src/difficulty.rs:289-354 | Along every run of admitted blocks, whatever the timestamps, the difficulty is at least 1 and cumulative difficulties stay strictly increasing |
| `AltChains.PathOfAncestor` | consensus/context/src/alt_chains.rs:128-172 | The headers up to an ancestor are a prefix of the headers up to the tip |
| `AltChains.AddNewBlock` | consensus/context/src/alt_chains.rs:46-68 | A cache true of the parent becomes one true of the new block |
| `AltChains.AltChainMap.GetAltChainContext` | consensus/context/src/alt_chains.rs:93-125 | The context returned is true of the parent asked for, taken out of the map if it is there; an error exactly for unknown parents |
| `AltChains.GetAltChainDifficultyCache` | consensus/context/src/alt_chains.rs:128-172 | Clone-and-pop on the main chain and rebuilding elsewhere both give the window of the parent's own ancestry |
| `ContextTasks.ContextTask.AltBlock` | consensus/src/block/alt_block.rs:39-188 | An alternative block is stored if and only if its parent is known, its height is right and its checks pass; its cumulative difficulty is that of its parent's own window plus the difficulty the window asks for, and the map then holds a true cache under it |
| `ContextTasks.ContextTask.MainBlock` | consensus/context/src/task.rs:191-219 | The main chain grows by the block, the main cache with it, and alternative caches stay true |
| `ContextTasks.ContextTask.PopBlocks` | consensus/context/src/task.rs:220-272 | The main chain and its cache go back together and the map is emptied |
| `ContextTasks.ContextTask.Step` | consensus/context/src/task.rs:169-332 | Per event: an alternative block leaves the main chain alone and is stored exactly when it should be, a new main-chain block becomes the tip, popping cuts the chain back, and clearing empties the map |
| `ContextTasks.Run` | consensus/context/src/task.rs:169-332 | After any run of events the main cache is a rebuild's, every map key is its cache's tip, every built cache is the window of that tip's ancestry, and every block on every chain has the cumulative difficulty its own ancestry asks for |
| `Transactions.LeastTime` | consensus/src/transactions.rs:552-559 | The lock kept is the least time-based one of the ring; none is kept exactly when there is none |
| `Transactions.LockOpens` | consensus/rules/src/transactions.rs:222-256 | A block lock opens exactly at its height and a time lock one block time early; an open lock stays open as height and clock grow |
| `Transactions.SameBlockSamePast` | consensus/src/transactions.rs:321-352 | A block that is in two chains has the same height and the same past in both |
| `Transactions.HashesReferencedInMainChain` | consensus/src/transactions.rs:321-352 | Of the blocks that cached states name, exactly those in the main chain are known |
| `Transactions.VerificationNeeded` | consensus/src/transactions.rs:358-440 | Fails if and only if a standing verdict's lock is locked again; otherwise every entry gets exactly the checks its cached state does not cover |
| `TransactionVerifier.Queue` | consensus/src/transactions.rs:187-208 | Succeeds if and only if every transaction passes the semantic checks, and then records that fork for each |
| `TransactionVerifier.VerifyDecoyInfo` | consensus/src/transactions.rs:443-460 | Succeeds if and only if it is fork 1 or every version 1 transaction listed has valid decoys |
| `TransactionVerifier.BatchGetRingMemberInfo` | consensus/src/transactions.rs:487-497 | The ring listed at a transaction's rank among the wanted ones is that transaction's own |
| `TransactionVerifier.CheckContextual` | consensus/rules/src/transactions.rs:626-649 | Succeeds if and only if inputs, decoys (except at fork 1) and every lock pass |
| `TransactionVerifier.CheckWanted` | consensus/src/transactions.rs:499-533 | The zipped loop succeeds if and only if every wanted transaction passes its checks on its own ring |
| `TransactionVerifier.StoreVerdicts` | consensus/src/transactions.rs:535-575 | Each wanted entry gets the verdict of its own ring: it names fork and top block and keeps the least time-based lock exactly when there is one; the others and the order are unchanged |
| `TransactionVerifier.VerifyTransactions` | consensus/src/transactions.rs:467-581 | Succeeds if and only if every wanted transaction passes, and then stores every verdict with the right transaction |
| `TransactionVerifier.RetestCoversRing` | consensus/src/transactions.rs:418-424 | For a ring checked at some moment: passing the re-test means every lock is open, on every longer chain and at every clock, if and only if no time-based lock is later than both the stored one and the block time |
| `TransactionVerifier.RelockedMeansNotLeastOpen` | consensus/src/transactions.rs:418-424 | The verdict stored at that moment is refused as locked exactly when it fails this re-test |
| `TransactionVerifier.CoveredRingIsOpen` | consensus/src/transactions.rs:418-424 | A transaction covered by an earlier moment, with every lock covered, has its whole ring open now, block heights included |
| `TransactionVerifier.UncoveredLockAccepted` | types/types/src/transaction_verification_data.rs:49-64 | A ring with locks 1000 and 2000, checked at clock 1900, is accepted again at clock 1500 on the same chain although its contextual checks fail there |
| `TransactionVerifier.StandingIsSound` | consensus/src/transactions.rs:386-440 | A verdict that stands means contextual checks passed on a chain the current one still extends, under the current fork |
| `TransactionVerifier.SettledWantsNothing` | consensus/src/transactions.rs:358-440 | An entry whose verdict stands wants no check again on the same chain, clock and fork but version 1 decoys, and is left as it is |
| `TransactionVerifier.FullVerify` | consensus/src/transactions.rs:228-280 | Exactly when it succeeds; every transaction returned passed semantic checks at this fork and contextual checks now or on a prefix of this chain, its stored lock and every lock that one covers are open, version 1 decoys hold now, every new verdict is justified, and every verdict then stands and is not locked again |
| `KeyImages.CheckKisUnique` | consensus/src/transactions.rs:283-317 | Succeeds if and only if no image is spent at two places among the transactions and none is already spent |
| `KeyImages.CheckedCanFollow` | consensus/src/transactions.rs:231-236 | Checked transactions on top of a chain without double spends give one without, and recording their images keeps the record exact |
| `KeyImages.CutBack` | consensus/src/transactions.rs:302-314 | Removing the last transactions frees exactly their images |
| `KeyImages.BatchSplits` | consensus/src/block/batch_prepare.rs:211-223 | A batch checked as a whole needs no check per block: once its first part is recorded the rest still passes |
| `BlockAdmission.MatchesBlock` | consensus/src/block.rs:267-276 | Succeeds if and only if the transactions are those the block lists, in order |
| `BlockAdmission.Node.SemanticCheck` | consensus/src/transactions.rs:187-208 | Succeeds if and only if every transaction passes; then exactly these are handed out again, with their fork |
| `BlockAdmission.Node.FullCheck` | consensus/src/transactions.rs:228-280 | Succeeds if and only if images and every transaction pass; then they are handed out again, sound and with verdicts that stand |
| `BlockAdmission.Node.AdmitBlock` | consensus/src/block.rs:250-334 | Exactly when a block is admitted: listed transactions, images, each transaction acceptable, proof of work, parent and height; its transactions are stored, its images recorded and the node stays valid; otherwise the chain is unchanged |
| `BlockAdmission.FollowEachOther` | consensus/src/block/batch_prepare.rs:75-97 | Succeeds if and only if each block goes on top of the one before it and none has a later version than the last |
| `BlockAdmission.Node.PrepareBatch` | consensus/src/block/batch_prepare.rs:40-224 | A batch is prepared if and only if it is not empty, its blocks follow each other and the chain, proofs of work and semantic checks at each block's version pass, and its images are unspent and different throughout |
| `BlockAdmission.Node.AdmitBatch` | consensus/src/block/batch_prepare.rs:30-35 | With the per-block image check skipped, and the fork of the context free to differ from the version prepared for: nothing is admitted of a batch that does not pass preparation; of one that does, every block admitted was admissible on the chain it came on, and admission stops only at one that is not |
| `BlockAdmission.Node.PopBlocks` | consensus/context/src/task.rs:220-272 | The chain is cut back and the record of images stays exact |
| `BlockAdmission.Node.Step` | consensus/src/block.rs:250-334 | The main chain after each kind of event, as a function of the chain, the images spent and the records before it |
| `BlockAdmission.Run` | consensus/src/block.rs:250-334 | After any run of submissions, checks, blocks, batches and reorganisations nothing is spent twice, every transaction in the chain was fully verified when it came in, and every cached verdict is justified |
| `Pruning.StripesDouble` | pruning/src/lib.rs:267-271 | The number of stripes is 1 at first and doubles with each log |
| `Pruning.NewExactly` | pruning/src/lib.rs:267-279 | A seed is made exactly for at most 7 log stripes and a stripe among them; which error is given otherwise |
| `Pruning.CompressThenDecompress` | pruning/src/lib.rs:285-308 | A valid seed survives the round trip if and only if it has two stripes or more; the other comes back as "not pruned" |
| `Pruning.DecompressThenCompress` | pruning/src/lib.rs:285-308 | Decompression gives valid seeds only and loses exactly the bits above the tenth |
| `Pruning.NextUnprunedIsSearch` | pruning/src/lib.rs:331-382 | The jump lands on the least kept height from the given one on; its last error cannot occur |
| `Pruning.NextUnprunedErrors` | pruning/src/lib.rs:331-382 | Each height error occurs exactly for the heights it names |
| `Pruning.NextPrunedExactly` | pruning/src/lib.rs:397-429 | What is returned, errors included, for every valid seed and every pair of heights |
| `Pruning.NextPrunedErrors` | pruning/src/lib.rs:397-429 | An error is returned if and only if the chain is too high and the block is kept and below its tip |
| `Pruning.NextPrunedMeaning` | pruning/src/lib.rs:397-429 | With two stripes or more: nothing exactly at the tip; otherwise all before the height returned is kept, and it is the least pruned height or, if there is none, the first tip height |
| `Pruning.DocumentedExactlyWhen` | pruning/src/lib.rs:136-150 | For every pair of heights, the documented height or error is returned if and only if a condition on height, chain height and seed holds |
| `Pruning.KeptBlockGiven` | pruning/src/lib.rs:397-429 | An input in range for which a kept height is returned |
| `Pruning.ErrorNotGiven` | pruning/src/lib.rs:390-408 | Two inputs out of range, one above its chain and one on a chain that is too high, that give no error |
| `IntegerMath.NothingWraps` | cryptonight/src/hash_v2.rs:61-87 | No wrapping operation wraps for an admissible estimate within one of the root |
| `IntegerMath.FixUpExactly` | cryptonight/src/hash_v2.rs:61-87 | For every input and every 64-bit estimate, the fix-up gives floor(2 sqrt(2^64 + n) - 2^33) if and only if the estimate is within one of it and at most 3558067407 |
| `IntegerMath.RootExists` | cryptonight/src/hash_v2.rs:61-87 | Every input has such a root and it is itself an admissible estimate |
| `IntegerMath.Sqrt` | cryptonight/src/hash_v2.rs:61-87 | The two corrections on the local variable are the fix-up, so exact under the same condition |
| `IntegerMath.LargeEstimateFails` | cryptonight/src/hash_v2.rs:61-87 | For every input whose root is 3558067407, the estimate one above it gives a wrong result |
| `KeySchedule.RoundConstsArePowers` | cryptonight/src/cnaes.rs:201-203 | The table of round constants holds the powers of x in the field of FIPS 197 |
| `KeySchedule.LittleIsHomomorphism` | cryptonight/src/cnaes.rs:174-186 | Little-endian words turn the standard's byte operations into the code's word operations |
| `KeySchedule.SubstituteLittle` | cryptonight/src/cnaes.rs:174-186 | Substituting the bytes of a word in place is the standard's SubWord on its little-endian bytes |
| `KeySchedule.LoadIs` | cryptonight/src/cnaes.rs:196-197 | A 16-byte little-endian load gives the four key words in order |
| `KeySchedule.ExpansionRespected` | cryptonight/src/cnaes.rs:188-236 | Such a map carries one key expansion to the other, word by word |
| `KeySchedule.KeyExtend` | cryptonight/src/cnaes.rs:188-236 | For every key the ten round keys pack the first 40 words of the AES-256 expansion of section 5.2 of FIPS 197 |
| `SlowHash.ShuffleStaysInLine` | cryptonight/src/hash_v2.rs:9-54 | The shuffle changes the other three blocks of the addressed line, each by the old value of the right neighbour, and nothing else |
| `SlowHash.ShuffleAdd` | cryptonight/src/hash_v2.rs:9-54 | In place, for every variant |
| `SlowHash.IdleStep` | cryptonight/src/hash_v4.rs:387-409 | With zero R0-R3 and a program that returns at once, the random-math step changes neither `a1` nor `c2` and stays so |
| `SlowHash.InitiallyIdle` | cryptonight/src/slow_hash.rs:234-252 | Variants 0, 1 and 2 start in that state |
| `SlowHash.RandomMath` | cryptonight/src/hash_v4.rs:387-409 | In place, the random-math step for any program |
| `SlowHashLoop.IterationIsReference` | cryptonight/src/slow_hash.rs:300-335 | One iteration of the code, with its interleaved branches on the variant, is the step that variant 0, 1, 2 or R is defined by on its own |
| `SlowHashLoop.MainLoop` | cryptonight/src/slow_hash.rs:300-335 | Any number of iterations in place give the loop of that definition, although the code takes the random-math step in every variant; every index is in range |
| `SlowHash.Variant0IsPlain` | cryptonight/src/slow_hash.rs:300-335 | Variant 0 is the memory-hard loop of section 4 of CryptoNote Standard CNS008 |
| `SlowHashOps.Index` | cryptonight/src/slow_hash.rs:122-130 | Every block addresses a place inside the scratchpad |
| `SlowHashOps.IndexBits` | cryptonight/src/slow_hash.rs:122-130 | The index is bits 4 to 20 of the block |
| `SlowHashOps.JoinExchanges` | cryptonight/src/slow_hash.rs:135-142 | Exchanging the halves of a product is a rotation by 64 |
| `SlowHashOps.SumHalvesIs` | cryptonight/src/slow_hash.rs:147-157 | The halves are added separately, without a carry between them |
| `SlowHashOps.MaskedSumIs` | cryptonight/src/hash_v2.rs:9-54 | The masked 128-bit sum of the shuffle adds the halves separately as well |
| `SlowHashOps.TweakByte11Injective` | cryptonight/src/slow_hash.rs:181-192 | The byte tweak of variant 1 loses nothing |
| `SlowHashOps.TweakHighHalves` | cryptonight/src/slow_hash.rs:196-200 | The second tweak of variant 1 changes the high half only |
| `SlowHashOps.DivisorBits` | cryptonight/src/hash_v2.rs:111 | The divisor is the low word of the sum with its top and bottom bits set |
| `SlowHashOps.DivisionExactly` | cryptonight/src/hash_v2.rs:112 | The division result holds the low word of the quotient and the whole remainder, for every 64-bit dividend |
| `SlowHashOps.MixedWithHalves` | cryptonight/src/hash_v2.rs:105-106 | The two previous results go into the low half of `c2` |
| `SlowHashOps.ConstantsExactly` | cryptonight/src/hash_v4.rs:397-401 | R4-R8 are words 0 and 2 of `a1`, word 0 of `b0`, and words 0 and 2 of `b1` |
| `SlowHashOps.WordsOfBlock` | cryptonight/src/hash_v4.rs:405-408 | The four words a block is put together from are its own words, lowest first |
| `SlowHashOps.RegistersExactly` | cryptonight/src/hash_v4.rs:405-408 | The block for `a1` is put together from R2, R3, R0 and R1, lowest word first |
| `SlowHashOps.SumsExactly` | cryptonight/src/hash_v4.rs:394-395 | The block for `c2` has the sum of R0 and R1, then that of R2 and R3, in its low half and zeros above |
| `SlowHashOps.InstanceIsLawful` | cryptonight/src/slow_hash.rs:122-225 | The 128-bit operations meet what the loop's theorems ask, whatever the AES round |

## Left out

- RandomMathInit: makes at most `attempts` attempts, where the source repeats without a bound; whether some attempt is accepted depends on hash output and is not claimed.
- FullVerify: promises nothing of a time-based lock later than both the stored one and the block time, because the code does not re-test it (`UncoveredLockAccepted`).
- AdmitBlock: proof of work is one given verdict, and the weight, reward and remaining header checks are another.
- PrepareBatch: the difficulty each proof of work is compared with is part of the given verdict (`NextDifficulties` states which it is), and a block's transactions are given in the order it lists them.
- ContextTasks.Run: starts from a database whose headers carry the cumulative difficulties their own ancestry asks for (one with the genesis block alone, for instance), since the source subtracts them without a check.
- MainLoop: the initial fill and the final mixing of the scratchpad, Keccak and the four closing hashes are not modelled.
- Queue: queueing and a successful batch verification are one step; a caller who skips the second is not modelled.
- Database failures, missing responses and concurrency: each request is one atomic step that succeeds.
- Which of several errors is reported first, where the source checks in parallel.
- Widths: difficulties, timestamps and heights are unbounded, so overflow of `u128`, `u64` and `usize` in `difficulty.rs`, `pruning` and time-lock sums is not modelled. BLAKE-256, the generator, the interpreter and the square root keep their widths.
- The floating-point square root: its estimate is an input.
- The output cache of a prepared batch: its answers are taken to be the database's.
- The BLAKE-256 compression function, the S-box, the AES round and the substitution tables: parameters.
- Hard-fork voting, block weight caches and RandomX virtual machines: they keep their own state and would only add similar members.
- Chain identifiers of alternative chains and the order of pruning seeds: conventions without hard properties.
