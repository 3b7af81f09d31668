# Bitcoin oracle: a verified model

The oracle moves BRC-20 transfer events from validators to a Stacks contract. Validators sign events, an API
stores the proofs, an indexer and a relayer look for quorums, and the contract re-checks signatures and Bitcoin
inclusion before it records an event and updates balances. This project models the parts of that pipeline that
decide what may be recorded, and proves what they guarantee.

| files | what they model |
|---|---|
| `Clarity.dfy` | byte buffers, responses (ok, err, panic), little-endian numbers |
| `BitcoinReader.dfy`, `BitcoinWire.dfy` | the cursor-threading readers and parsers of clarity-bitcoin, and the wire forms they are meant to undo: BIP 144, section "Serialization", and the legacy form |
| `BitcoinReaderProofs.dfy`, `BitcoinTxProofs.dfy`, `BitcoinAnswers.dfy` | readers against encoders, whole transactions, witness stripping, the answers to what is not accepted |
| `LegacyPrinter.dfy` | clarity-bitcoin-helper |
| `Merkle.dfy`, `Mined.dfy` | the Merkle-proof verifier, Bitcoin's tree, the mined check |
| `Registry.dfy`, `RegistryMixed.dfy` | registries v1-01 and v1-02, the overlay of one on the other, and runs that write both |
| `Oracle.dfy`, `OracleRuns.dfy`, `OracleTheorems.dfy`, `OracleSettings.dfy`, `OracleBalances.dfy`, `EndToEnd.dfy` | the oracle contract as a state machine and as an object, and its guarantees over every run |
| `Scheduler.dfy`, `LineCode.dfy`, `Deploy.dfy` | nonce scheduling, line codes, deployment order |
| `ProofsTable.dfy`, `ProofsHistory.dfy`, `MetaIndexer.dfy`, `Relayer.dfy` | proofs, quorums, records and their histories; packaging for the contract |

Conventions. SHA-256, key recovery, event hashing and database digests are function parameters, so every
statement holds for any such function. Where a result would need injectivity it names the colliding pair, always built
from the inputs of the statement: what a proof and the tree's own path hash at one step, two rows of one table. That some
pair collides holds of every hash, so a pair that is not named would say nothing. A
public call is a function from a state to a new state, an error or a panic, and an error or panic discards all
changes; the classes hold the same state in fields and are proved against those functions. Bounds that come from
a declared argument type (a proof of at most 14 hashes of at most 32 bytes, full-width fields) appear as named
predicates. The declared buffer cap plays no part in any reader, and the cap on inputs, outputs and witness items is
an arbitrary number from 32 to 252, so the Bitcoin model covers the revisions that differ only in these: 32 items up
to v1-04, which oracle-v1-01 calls as v1-02, and 62 from v1-05 on.

Where documentation and code differ the model follows the code:

- read-witnesses documents its own error codes, but an error in any input except the last comes back as error 1.
- read-varint accepts over-long forms; a proof of depth 0 is answered "false", not "too short".
- The mined check is documented as linking a transaction to the block's root, but the depth is the submitter's and
  was-tx-mined? does not parse the buffer. With a depth too small the 64 bytes of two tree nodes pass
  (`EndToEnd.NodePairIsMined`); with one too large, anything whose hash makes up half of a transaction of at most 64
  bytes (`EndToEnd.InsideIsMined`). `EndToEnd.IncludedIsMember` says that these are the only ways; in a block whose
  transactions are all longer than 64 bytes the exact condition for membership is that the hashed bytes are not 64 long.
- The relayer counts proofs, the contract different signers, of which it takes ten at most; see
  `Relayer.PackagePassesExactly` and `Relayer.PackageFitsExactly`.
- The legacy data under registry v1-02 can still be written in v1-01 by its owner and operators; `RegistryMixed` says what
  readers of v1-02 then see.
- A repeated signature blocks the drain for good, like a late quorum (`ProofsHistory.TiedForever`).
- Line codes are meant to identify a line; `LineCode.LineCodesCollideExactly` says exactly when two lines share one.
- The relayer test of the contract is on the presence of a key, so a relayer set to false still passes.
- A transaction that is already in the mined map is not checked again, so heights of balances are as submitted.
- onSettled callbacks run over an already drained queue, so none runs.
- validated_txs has a unique digest of transaction and order hash, so a second quorum for a recorded event makes
  every later drain throw (`ProofsHistory.LateForever`). `MetaIndexer.Indexer.Process` states the exact condition,
  `AllClear`, under which the drain goes through, and `ProofsHistory.ClearExactly` says what it comes down to.

## Model

| member | source | states |
|---|---|---|
| BitcoinTxProofs.ParseWtxPrint | packages/contracts/bitcoin-oracle/contracts/clarity-bitcoin-v1-05.clar:328-347 | every segwit transaction within the caps is read back exactly from its BIP 144 bytes |
| BitcoinTxProofs.ParseWtxSound | packages/contracts/bitcoin-oracle/contracts/clarity-bitcoin-v1-05.clar:328-347 | whatever parse-wtx accepts fits the caps; the printed form of the result is never longer than the buffer, and equals it exactly when no CompactSize in it is over-long, exactly when the lengths agree |
| BitcoinTxProofs.ParseWtxExact | packages/contracts/bitcoin-oracle/contracts/clarity-bitcoin-v1-05.clar:328-347 | print then parse is the identity on a transaction if and only if it fits the caps |
| BitcoinTxProofs.ParseTxPrint | packages/contracts/bitcoin-oracle/contracts/clarity-bitcoin-v1-05.clar:349-361 | the same round trip for the legacy form |
| BitcoinTxProofs.ParseTxSound | packages/contracts/bitcoin-oracle/contracts/clarity-bitcoin-v1-05.clar:349-361 | among all buffers parse-tx reads as one transaction, the printed one is the only shortest and the only one with minimal CompactSizes |
| BitcoinTxProofs.ParseTxExact | packages/contracts/bitcoin-oracle/contracts/clarity-bitcoin-v1-05.clar:349-361 | legacy round trip if and only if the caps are met |
| BitcoinTxProofs.OverlongIsAccepted | packages/contracts/bitcoin-oracle/contracts/clarity-bitcoin-v1-05.clar:53-74 | a concrete buffer with an over-long count parses like the shorter print |
| BitcoinTxProofs.DropWitnessCommutes | packages/contracts/bitcoin-oracle/contracts/clarity-bitcoin-v1-05.clar:420-438 | for every accepted segwit buffer, minimal or not, cutting flags and witnesses out leaves a buffer that parse-tx reads as the same transaction |
| BitcoinTxProofs.DropWitnessOfPrint | packages/contracts/bitcoin-oracle/contracts/clarity-bitcoin-v1-05.clar:420-438 | on the BIP 144 form the cut is the legacy form, byte for byte |
| BitcoinTxProofs.SegwitIsRecognised | packages/contracts/bitcoin-oracle/contracts/clarity-bitcoin-v1-05.clar:293-300 | an accepted segwit buffer is classified as segwit |
| BitcoinTxProofs.LegacyIsRecognised | packages/contracts/bitcoin-oracle/contracts/clarity-bitcoin-v1-05.clar:293-300 | a legacy buffer is taken for segwit exactly when it has no input and says so in one byte |
| BitcoinReaderProofs.ReverseBuff32IsReverse | packages/contracts/bitcoin-oracle/contracts/clarity-bitcoin-v1-05.clar:90-105 | the sixteen swaps reverse the buffer |
| BitcoinReaderProofs.VarintPrint | packages/contracts/bitcoin-oracle/contracts/clarity-bitcoin-v1-05.clar:53-74 | read-varint returns what the shortest of the four forms encodes |
| BitcoinReaderProofs.VarintSound | packages/contracts/bitcoin-oracle/contracts/clarity-bitcoin-v1-05.clar:53-74 | an accepted CompactSize is at least as long as the shortest form, and is that form exactly when it is minimal |
| BitcoinReaderProofs.VarintMove | packages/contracts/bitcoin-oracle/contracts/clarity-bitcoin-v1-05.clar:53-74 | read-varint depends only on the bytes it consumes |
| BitcoinReaderProofs.SliceSound | packages/contracts/bitcoin-oracle/contracts/clarity-bitcoin-v1-05.clar:79-86 | a slice read covers its own encoding, with equality exactly for a minimal length |
| BitcoinReaderProofs.TxinLawful | packages/contracts/bitcoin-oracle/contracts/clarity-bitcoin-v1-05.clar:127-169 | the input reader returns what its encoder wrote, never consumes less than its result needs, and looks only at what it consumes |
| BitcoinReaderProofs.TxoutLawful | packages/contracts/bitcoin-oracle/contracts/clarity-bitcoin-v1-05.clar:194-216 | the same three laws for outputs |
| BitcoinReaderProofs.ElementLawful | packages/contracts/bitcoin-oracle/contracts/clarity-bitcoin-v1-05.clar:236-254 | the same three laws for witness items |
| BitcoinReaderProofs.WitnessLawful | packages/contracts/bitcoin-oracle/contracts/clarity-bitcoin-v1-05.clar:256-280 | the same three laws for the witness of one input |
| BitcoinReaderProofs.FoldTxinsIsMany | packages/contracts/bitcoin-oracle/contracts/clarity-bitcoin-v1-05.clar:127-187 | the input fold with its remaining counter reads the inputs one after the other, with the same errors |
| BitcoinReaderProofs.FoldTxoutsIsMany | packages/contracts/bitcoin-oracle/contracts/clarity-bitcoin-v1-05.clar:194-234 | likewise for outputs |
| BitcoinReaderProofs.FoldElementsIsMany | packages/contracts/bitcoin-oracle/contracts/clarity-bitcoin-v1-05.clar:236-272 | likewise for the items of a witness |
| BitcoinReaderProofs.FoldWitnessesIsMany | packages/contracts/bitcoin-oracle/contracts/clarity-bitcoin-v1-05.clar:256-289 | the witness fold reads the witnesses one after the other; an error keeps its code exactly when it is the last input's, and becomes error 1 otherwise; a panic stays a panic |
| BitcoinReaderProofs.WitnessesFail | packages/contracts/bitcoin-oracle/contracts/clarity-bitcoin-v1-05.clar:261-280 | after a failed witness every later input turns the error into 1, a panic stays a panic |
| BitcoinAnswers.VarintAnswers | packages/contracts/bitcoin-oracle/contracts/clarity-bitcoin-v1-05.clar:53-74 | a CompactSize is read exactly when the bytes its first byte asks for are there; otherwise error 1001 |
| BitcoinAnswers.TxinAnswers | packages/contracts/bitcoin-oracle/contracts/clarity-bitcoin-v1-05.clar:127-169 | an input is out of bounds (1001) unless all its fields are there, and only then too long (1004), above 256 script bytes |
| BitcoinAnswers.TxoutAnswers | packages/contracts/bitcoin-oracle/contracts/clarity-bitcoin-v1-05.clar:194-216 | likewise for an output, above 128 script bytes |
| BitcoinAnswers.ElementAnswers | packages/contracts/bitcoin-oracle/contracts/clarity-bitcoin-v1-05.clar:236-254 | likewise for a witness item, above 256 bytes |
| BitcoinAnswers.ManyAnswers | packages/contracts/bitcoin-oracle/contracts/clarity-bitcoin-v1-05.clar:127-216 | a list fails like the first of its items that fails |
| BitcoinAnswers.CountAnswers | packages/contracts/bitcoin-oracle/contracts/clarity-bitcoin-v1-05.clar:176-289 | above the cap, inputs are error 1002, outputs 1003, and the items of a witness a panic; within it the list is read item by item |
| BitcoinAnswers.ParseTxAnswers | packages/contracts/bitcoin-oracle/contracts/clarity-bitcoin-v1-05.clar:349-361 | parse-tx answers like the first reader that fails, and with 1010 exactly when bytes are left over |
| BitcoinAnswers.ParseWtxAnswers | packages/contracts/bitcoin-oracle/contracts/clarity-bitcoin-v1-05.clar:328-347 | parse-wtx reads everything first, then answers 1011 for wrong flags, then 1010 for leftover bytes |
| BitcoinAnswers.DropWitnessAnswers | packages/contracts/bitcoin-oracle/contracts/clarity-bitcoin-v1-05.clar:420-438 | the cut succeeds exactly when everything is readable, whatever the flags and leftover bytes, gives exactly those parts of the buffer, and panics otherwise |
| Merkle.MerkleExact | packages/contracts/bitcoin-oracle/contracts/clarity-bitcoin-v1-05.clar:456-496 | the flagged 14-step fold is true exactly when the depth is the hash count, at least 1, and the plain climb by the index bits reaches the root; short proofs and index overflow included |
| Merkle.GuardBit | packages/contracts/bitcoin-oracle/contracts/clarity-bitcoin-v1-05.clar:491-491 | the guard bit added at the depth leaves the lower path bits alone |
| Merkle.MerkleBinding | packages/contracts/bitcoin-oracle/contracts/clarity-bitcoin-v1-05.clar:456-496 | two 32-byte leaves accepted at one index and depth under one root are equal, with equal proofs, or the buffers of at most 64 bytes that the two proofs hash at one and the same step collide |
| Merkle.ClimbBinds | packages/contracts/bitcoin-oracle/contracts/clarity-bitcoin-v1-05.clar:461-471 | two climbs from one position to one value start from the same leaf with the same siblings, or collide at a step |
| Merkle.SiblingPathClimbs | packages/contracts/bitcoin-oracle/contracts/clarity-bitcoin-v1-05.clar:473-496 | in a tree that pairs an odd last node with itself, the sibling path of any index climbs from its leaf to the root |
| Merkle.MerkleComplete | packages/contracts/bitcoin-oracle/contracts/clarity-bitcoin-v1-05.clar:483-496 | every leaf of 2 to 2^14 is accepted with its sibling path |
| Merkle.MerkleAccepts | packages/contracts/bitcoin-oracle/contracts/clarity-bitcoin-v1-05.clar:456-496 | at any claimed depth and index, every proof that runs along the tree is accepted: a node with the rest of its path, or, for a depth above the tree's, a value whose first hashes climb to a leaf followed by that leaf's path; and whatever is accepted is such a proof, or at some step it collides with the tree's own path |
| Merkle.ClimbSplit | packages/contracts/bitcoin-oracle/contracts/clarity-bitcoin-v1-05.clar:456-471 | a climb is the climb of its first hashes followed by the climb of the rest at the shifted index |
| Mined.HeaderRoot | packages/contracts/bitcoin-oracle/contracts/clarity-bitcoin-v1-05.clar:373-388 | the header parser accepts from 80 bytes on and its root reversed again is the raw bytes 36 to 68 |
| Mined.VerifyMinedExact | packages/contracts/bitcoin-oracle/contracts/oracle-v1-01.clar:135-146 | a mainnet verdict holds exactly when the txid is readable, the header hash is the chain's at that height, and the proof climbs to the header's root |
| Mined.VerifyMinedAnswers | packages/contracts/bitcoin-oracle/contracts/oracle-v1-01.clar:135-146 | the answer in every case: mined off mainnet; on mainnet error 1001 for a buffer too short to tell apart, a panic for an unreadable segwit buffer or an index overflow, 1009 for whatever is not included |
| Mined.SameTxidSameVerdict | packages/contracts/bitcoin-oracle/contracts/oracle-v1-01.clar:135-146 | the verdict depends on the transaction only through the dispatched txid |
| Mined.BothFormsSameVerdict | packages/contracts/bitcoin-oracle/contracts/oracle-v1-01.clar:135-146 | an accepted segwit buffer with an input gets the same txid and verdict as its legacy form, against every block and proof |
| Mined.PrintsSameTxid | packages/contracts/bitcoin-oracle/contracts/clarity-bitcoin-v1-05.clar:409-438 | the segwit txid of the BIP 144 bytes is the double hash of the legacy bytes of the same transaction |
| LegacyPrinter.ConcatTxRoundTrip | packages/contracts/bitcoin-oracle/contracts/clarity-bitcoin-helper-v1-01.clar:23-45 | when the helper prints, parse-tx restores the fields if and only if every scriptSig has at most 252 bytes |
| LegacyPrinter.ConcatTxWire | packages/contracts/bitcoin-oracle/contracts/clarity-bitcoin-helper-v1-01.clar:23-52 | the printed bytes are the legacy wire form for short scripts, and strictly shorter than it otherwise |
| LegacyPrinter.ConcatTxPrints | packages/contracts/bitcoin-oracle/contracts/clarity-bitcoin-helper-v1-01.clar:23-45 | with short scripts the helper prints exactly when the wire form fits 1024 bytes |
| LegacyPrinter.ConcatTxExact | packages/contracts/bitcoin-oracle/contracts/clarity-bitcoin-helper-v1-01.clar:23-52 | for every script length: the helper prints the fields one after the other with one-byte counts and lengths when no script exceeds 255 bytes and the whole fits 1024, and panics otherwise |
| LegacyPrinter.ConcatHeaderRoundTrip | packages/contracts/bitcoin-oracle/contracts/clarity-bitcoin-helper-v1-01.clar:48-49 | parse-block-header restores the header fields, numbers little-endian and hashes reversed |
| Registry.RegistryV1.Put | packages/contracts/bitcoin-oracle/contracts/oracle-registry-v1-01.clar:64-96 | a guarded setter changes its own map only, or reports the error and changes nothing |
| Registry.RegistryV1.Govern | packages/contracts/bitcoin-oracle/contracts/oracle-registry-v1-01.clar:24-37 | owner-only settings |
| Registry.V1WriteExact | packages/contracts/bitcoin-oracle/contracts/oracle-registry-v1-01.clar:64-101 | a write is accepted exactly from the owner or an operator approved with true while not paused, with errors 1000 and 1001 otherwise, and changes one map at one key |
| Registry.V1GovernExact | packages/contracts/bitcoin-oracle/contracts/oracle-registry-v1-01.clar:24-37 | only the owner changes pause flag, operators or owner, each to the call's argument |
| Registry.RegistryV2.Call | packages/contracts/bitcoin-oracle/contracts/oracle-registry-v1-02.clar:20-43 | every v1-02 call, own writes and forwarded ones, changes both contracts as specified |
| Registry.RegistryV2.Store | packages/contracts/bitcoin-oracle/contracts/oracle-registry-v1-02.clar:80-104 | own maps are written here, balances and decimals are forwarded to v1-01 under the contract's principal |
| Registry.V2WriteExact | packages/contracts/bitcoin-oracle/contracts/oracle-registry-v1-02.clar:80-104 | accepted exactly from the owner of v1-02 or an operator of v1-01 while v1-02 is not paused; index writes stay here, balances and decimals are written to v1-01 under the contract's own principal |
| Registry.V2GovernExact | packages/contracts/bitcoin-oracle/contracts/oracle-registry-v1-02.clar:20-43 | own pause flag and owner, forwarded operators and legacy settings, which v1-01 takes only while v1-02 owns it |
| Registry.RegistryV2.GetMined | packages/contracts/bitcoin-oracle/contracts/oracle-registry-v1-02.clar:62-68 | legacy first for keys up to 4096 bytes, then the own map |
| Registry.RegistryV2.GetIndexed | packages/contracts/bitcoin-oracle/contracts/oracle-registry-v1-02.clar:70-76 | likewise for indexed events |
| RegistryOverlay.LookupsAreMerged | packages/contracts/bitcoin-oracle/contracts/oracle-registry-v1-02.clar:62-76 | both lookups are those of one map in which legacy entries win |
| RegistryOverlay.OverlayRefines | packages/contracts/bitcoin-oracle/contracts/oracle-registry-v1-02.clar:62-104 | over every run of v1-02 calls the two layers behave as one map whose legacy keys are frozen |
| RegistryOverlay.OverlayAnswers | packages/contracts/bitcoin-oracle/contracts/oracle-registry-v1-02.clar:62-104 | under v1-02 calls alone a legacy answer is kept forever; any other key answers with its last accepted write |
| RegistryOverlay.StepEffect | packages/contracts/bitcoin-oracle/contracts/oracle-registry-v1-02.clar:80-104 | one call: accepted writes reach the own maps, nothing reaches the legacy ones |
| RegistryMixed.MixedLayers | packages/contracts/bitcoin-oracle/contracts/oracle-registry-v1-01.clar:64-96 | when v1-01 is also written directly, each of the four maps is what its own accepted writes make of it |
| RegistryMixed.MixedAnswers | packages/contracts/bitcoin-oracle/contracts/oracle-registry-v1-02.clar:62-76 | the answers of v1-02 after any mix of v1-02 and direct v1-01 calls: the last direct write, else the legacy entry, else the last v1-02 write, else the old answer |
| RegistryMixed.LegacyKeptExactly | packages/contracts/bitcoin-oracle/contracts/oracle-registry-v1-02.clar:62-76 | a legacy answer, mined or indexed, is kept exactly when its key was not written directly since, or the last direct write repeats it |
| RegistryMixed.OwnSeenExactly | packages/contracts/bitcoin-oracle/contracts/oracle-registry-v1-02.clar:62-76 | a v1-02 entry, mined or indexed, that v1-01 did not hold before is the answer exactly when its key is too long for v1-01 or no different direct write shadows it |
| RegistryMixed.SettingsFromCalls | packages/contracts/bitcoin-oracle/contracts/oracle-registry-v1-02.clar:20-43 | after any mix of calls every setting of both contracts is what the last call by the then-owner said |
| RegistryMixed.DataChangedByAuthorised | packages/contracts/bitcoin-oracle/contracts/oracle-registry-v1-01.clar:64-101 | if any map of either contract changed, some call was a write by the then-owner or a then-approved operator of an unpaused contract |
| Oracle.OracleContract.CheckSignatures | packages/contracts/bitcoin-oracle/contracts/oracle-v1-01.clar:167-176 | the signature loop computes the specified fold |
| Oracle.OracleContract.IndexOne | packages/contracts/bitcoin-oracle/contracts/oracle-v1-01.clar:189-224 | one event in the order of the contract's checks and writes |
| Oracle.OracleContract.IndexAll | packages/contracts/bitcoin-oracle/contracts/oracle-v1-01.clar:154-163 | the batch, with every change undone when it fails |
| Oracle.OracleContract.Configure | packages/contracts/bitcoin-oracle/contracts/oracle-v1-01.clar:49-84 | the owner's settings, validators and requirement |
| Oracle.OracleContract.Call | packages/contracts/bitcoin-oracle/contracts/oracle-v1-01.clar:49-163 | every public call changes the state as specified or not at all |
| OracleRuns.SignaturesExact | packages/contracts/bitcoin-oracle/contracts/oracle-v1-01.clar:125-130 | the signature fold succeeds exactly when signers are distinct and registered, hashes match, keys recover and no pair was used; it records exactly those pairs |
| OracleRuns.IndexTxExact | packages/contracts/bitcoin-oracle/contracts/oracle-v1-01.clar:189-224 | exactly when an event is indexed, and exactly what that changes |
| OracleRuns.RunReplays | packages/contracts/bitcoin-oracle/contracts/oracle-v1-01.clar:154-224 | after any run the ledger is the replay of its successful events, each allowed on the ledger it met |
| OracleTheorems.QuorumSafety | packages/contracts/bitcoin-oracle/contracts/oracle-v1-01.clar:125-224 | every entry of the index was written by an accepted call with at least the then-required packs, from distinct validators registered at that step, each recovering over the domain-prefixed hash of exactly that event, and holds that event's tick, amount, sender and receiver |
| OracleTheorems.LogOrigin | packages/contracts/bitcoin-oracle/contracts/oracle-v1-01.clar:154-163 | a log entry carries the validator set and requirement of the state its call met |
| OracleTheorems.SignaturesConserved | packages/contracts/bitcoin-oracle/contracts/oracle-v1-01.clar:167-176 | as many pairs are recorded as packs were carried by successful events, no pair is used twice, none is forgotten |
| OracleTheorems.ReplayBound | packages/contracts/bitcoin-oracle/contracts/oracle-v1-01.clar:206-216 | with at least k required, one event hash is indexed at most (validators ever registered) / k times |
| OracleTheorems.IndexedImpliesMined | packages/contracts/bitcoin-oracle/contracts/oracle-v1-01.clar:208-218 | indexed implies mined in every reachable state, a mined height is written once, and only with an accepted proof at that height |
| OracleTheorems.BatchIsOneByOne | packages/contracts/bitcoin-oracle/contracts/oracle-v1-01.clar:154-163 | a batch gives what one call per element gives, state or failure |
| OracleTheorems.BatchIsAtomic | packages/contracts/bitcoin-oracle/contracts/oracle-v1-01.clar:154-163 | a batch with a failing element leaves the state untouched |
| OracleTheorems.ValidatorCountExact | packages/contracts/bitcoin-oracle/contracts/oracle-v1-01.clar:54-68 | validator-count is the number of registered validators |
| OracleSettings.OwnerAnswers | packages/contracts/bitcoin-oracle/contracts/oracle-v1-01.clar:49-84 | the answer to every owner call: 1000 from anyone else, 1005 and 1001 for known and unknown validators, 1004 for a requirement of ten or more |
| OracleSettings.RegistryAnswers | packages/contracts/bitcoin-oracle/contracts/oracle-registry-v1-01.clar:24-37 | the registry under the oracle obeys its own owner only, and the oracle's state is untouched by that |
| OracleSettings.BatchRefused | packages/contracts/bitcoin-oracle/contracts/oracle-v1-01.clar:160-163 | a paused contract answers 1002, a sender never approved 1003, before any event is looked at |
| OracleSettings.FirstFault | packages/contracts/bitcoin-oracle/contracts/oracle-v1-01.clar:125-130 | the signature fold fails at the first pack at fault, and its code says how: unknown signer, pair used before or earlier in the list, other hash, key not recovered |
| OracleSettings.EventRefused | packages/contracts/bitcoin-oracle/contracts/oracle-v1-01.clar:189-224 | the answer to an event that is not indexed, in the order of the checks |
| OracleSettings.SettingsFromCalls | packages/contracts/bitcoin-oracle/contracts/oracle-v1-01.clar:49-84 | after any run owner, pause flag, relayers, requirement and validators are what the then-owners' last calls said; the requirement is the argument of the last accepted set-required-validators below ten |
| OracleSettings.QuorumFromCalls | packages/contracts/bitcoin-oracle/contracts/oracle-v1-01.clar:125-224 | quorum safety in terms of the calls alone: sender approved, not paused, at least the requirement last set, distinct validators added and not removed, each signing exactly that event with the key it was added with |
| OracleSettings.NothingBeforeSetup | packages/contracts/bitcoin-oracle/contracts/oracle-v1-01.clar:34-45 | a freshly deployed oracle indexes nothing until its owner acts |
| OracleBalances.BalanceClosedForm | packages/contracts/bitcoin-oracle/contracts/oracle-v1-01.clar:202-220 | the entry after any events is what the first event of greatest height reports, if that is newer |
| OracleBalances.ReorderConverges | packages/contracts/bitcoin-oracle/contracts/oracle-v1-01.clar:218-220 | a reordering gives the same up-to-block, and the same entry when the events of greatest height agree |
| OracleBalances.DistinctHeightsAgree | packages/contracts/bitcoin-oracle/contracts/oracle-v1-01.clar:218-220 | events of one key with pairwise different heights agree at the top |
| OracleBalances.OrderMattersExactly | packages/contracts/bitcoin-oracle/contracts/oracle-v1-01.clar:218-220 | every reordering gives the same entry if and only if nothing is newer or the events of greatest height agree |
| OracleBalances.RunBalances | packages/contracts/bitcoin-oracle/contracts/oracle-v1-01.clar:202-220 | after any run up-to-block is the maximum of the old one and the submitted heights |
| OracleBalances.BalanceFromNothing | packages/contracts/bitcoin-oracle/contracts/oracle-v1-01.clar:202-220 | from an empty registry a balance is 0 up to block 0, or what the first event of greatest height reports, the receiver's amount for a transfer to oneself |
| OracleBalances.RunsConverge | packages/contracts/bitcoin-oracle/contracts/oracle-v1-01.clar:202-220 | two runs with the same successful events up to order end with the same up-to-block, and the same entry when the events of greatest height agree |
| EndToEnd.IndexedIsSignedAndIncluded | packages/contracts/bitcoin-oracle/contracts/oracle-v1-01.clar:189-224 | on mainnet an indexed event has its quorum and its transaction is proved into the burn-chain block of the recorded height |
| EndToEnd.IncludedIsInBlock | packages/contracts/bitcoin-oracle/contracts/clarity-bitcoin-v1-05.clar:498-522 | for every accepted proof, whatever depth it claims: the txid is one of the block's, or the depth is too small and the hashed bytes are the 64 bytes of two tree nodes, or it is too large and the txid lies below one of the block's txids - or the proof collides with the tree's own path, or the hashed bytes with the two nodes at the proof's position |
| EndToEnd.IncludedIsMember | packages/contracts/bitcoin-oracle/contracts/clarity-bitcoin-v1-05.clar:498-522 | for every block of transactions: an included transaction is one of them, or its hashed bytes are two nodes of their tree, or it is inside one of them of at most 64 bytes - or the proof collides with the tree, or the hashed bytes or the proof's last step below a leaf with one of the transactions; if all of the block's transactions are longer than 64 bytes, it is one of them exactly when its hashed bytes are not 64 long, and exactly when the claimed depth is the tree's |
| EndToEnd.IndexedIsInBlock | packages/contracts/bitcoin-oracle/contracts/oracle-v1-01.clar:189-224 | after any run, an indexed event's transaction was submitted with a proof into a burn-chain block of the recorded height, in which it is one of the transactions, or two nodes of the tree, or inside a transaction of at most 64 bytes - or that proof and that block contain a collision as above; if that block's transactions are all longer than 64 bytes, it is one of them exactly when its hashed bytes are not 64 long |
| EndToEnd.NodePairIsMined | packages/contracts/bitcoin-oracle/contracts/clarity-bitcoin-v1-05.clar:513-522 | in every block of three or more transactions, all longer than 64 bytes, the 64 bytes of two tree nodes are accepted as mined whenever they do not look like segwit, although they are no transaction of the block |
| EndToEnd.InsideIsMined | packages/contracts/bitcoin-oracle/contracts/clarity-bitcoin-v1-05.clar:483-522 | if a transaction of a block is the hash of some `tx` next to at most 32 more bytes, then `tx`, of any length, is accepted as mined in that block with a depth one above the tree's |
| Scheduler.AwaitServer | packages/libs/brc20-indexer/src/operations/processOperations.ts:128-152 | polls until the nonce fits the window, no longer; says exactly when it throws or runs dry |
| Scheduler.Handle | packages/libs/brc20-indexer/src/operations/processOperations.ts:274-345 | what each reply does to nonce, window, queue and fee |
| Scheduler.ProcessOperations | packages/libs/brc20-indexer/src/operations/processOperations.ts:113-407 | every attempt is the closed form of AttemptExact and within the window; settlements follow the input; a finished call has accepted, found existing or rejected every operation once, returns the start nonce plus sent plus conflicts skipped, and waited for the server and for confirmation; the settlement callbacks see an empty queue |
| Scheduler.SettledInOrder | packages/libs/brc20-indexer/src/operations/processOperations.ts:127-346 | each operation is sent or dropped once, in input order |
| Scheduler.SettledAre | packages/libs/brc20-indexer/src/operations/processOperations.ts:274-345 | acceptance, an existing contract and any other rejection settle an operation; conflicts and chaining do not |
| Scheduler.AttemptExact | packages/libs/brc20-indexer/src/operations/processOperations.ts:127-272 | each attempt outright: its operation, its nonce, and its fee - raised, own, from the options or quoted, in this order |
| Scheduler.NextAttempt | packages/libs/brc20-indexer/src/operations/processOperations.ts:274-345 | after an acceptance, an existing contract or a rejection the next attempt is for the next operation, after a conflict or chaining for the same one; and how the nonce moves |
| Scheduler.ConflictThrows | packages/libs/brc20-indexer/src/operations/processOperations.ts:279-321 | a conflict that may not or cannot be replaced, or whose replacement throws, ends the call |
| Scheduler.FinishesExactly | packages/libs/brc20-indexer/src/operations/processOperations.ts:347-407 | with everything settled the call finishes exactly when the server catches up and anything sent is confirmed |
| Scheduler.NoncesIncrease | packages/libs/brc20-indexer/src/operations/processOperations.ts:274-287 | nonces never go down and pass every accepted or skipped one, so none carries two operations |
| Scheduler.NonceAccounting | packages/libs/brc20-indexer/src/operations/processOperations.ts:274-287 | the nonce has advanced once per operation sent and, under the increase strategy, once per conflict |
| Scheduler.WithinWindow | packages/libs/brc20-indexer/src/operations/processOperations.ts:128-152 | every attempt goes by the first poll since the one before that lets it into the window, which each chaining reply has shrunk by one |
| Scheduler.ConflictIsRetried | packages/libs/brc20-indexer/src/operations/processOperations.ts:279-321 | a conflict is retried at once: next nonce, or same nonce with the raised fee |
| Scheduler.ShrunkWindowStalls | packages/libs/brc20-indexer/src/operations/processOperations.ts:128-152 | after more chaining replies than the window was wide, an unsettled queue makes no further attempt and does not finish unless the server's nonce gets above the sender's; if nothing throws it waits forever |
| Relayer.MajorityExact | packages/apps/relayer/src/relayer-module/relayer.utils.ts:44-70 | none exactly when no hash has enough votes, otherwise all proofs of the most-voted hash, ties to the earliest |
| Relayer.CountByTallies | packages/apps/relayer/src/relayer-module/relayer.utils.ts:48-52 | the tally has one entry per hash, its votes, in order of first vote |
| Relayer.SortHead | packages/apps/relayer/src/relayer-module/relayer.utils.ts:48-54 | the head of the sorted tally is its first entry of greatest count |
| Relayer.PackagedAgrees | packages/apps/relayer/src/relayer-module/relayer.service.ts:138-296 | a packaged row carries all proofs of the winning hash, at least the minimum, and every pack's hash is the hash of the packaged event |
| Relayer.OutcomeExact | packages/apps/relayer/src/relayer-module/relayer.service.ts:92-296 | every outcome exactly, from the row itself: longer than 8192 bytes; indexed already; undecided with proofs to come, or with all in; decided for a hash that is, or is not, that of the reported event |
| Relayer.BatchNeverMismatches | packages/contracts/bitcoin-oracle/contracts/oracle-v1-01.clar:125-163 | for every batch of packages, every caller and every state, index-tx-many never answers ERR-ORDER-HASH-MISMATCH |
| Relayer.PackagePassesExactly | packages/contracts/bitcoin-oracle/contracts/oracle-v1-01.clar:189-224 | the contract takes a package exactly when the winning proofs are enough, come from pairwise different registered signers with valid and unused signatures, the transaction is or can be proved mined, and the registry lets the oracle write |
| Relayer.RepeatedSignerSinksBatch | packages/apps/relayer/src/relayer-module/relayer.utils.ts:44-70 | proofs are counted, not signers: one signer with two proofs of the winning hash makes every batch with that package fail and change nothing |
| Relayer.PackageFitsExactly | packages/contracts/bitcoin-oracle/contracts/oracle-v1-06.clar:154-159 | a package fits the argument of index-tx-many exactly when its columns fit their types and the winning proofs are at most ten |
| Relayer.GateExcludesMismatch | packages/apps/relayer/src/relayer-module/relayer.service.ts:233-270 | on rows whose proofs came through the API's gate the relayer's own hash check cannot fail, or one of those proofs is for another transaction with the row's id |
| Relayer.ChunkFits | packages/apps/relayer/src/relayer-module/relayer.service.ts:323-325 | the batches concatenate to all packages, none empty, none above the size, all but the last full |
| Relayer.SyncOnce | packages/apps/relayer/src/relayer-module/relayer.service.ts:67-378 | every row gets exactly one outcome; the keys reported as indexed, failed and waiting are exactly those of the rows with that outcome, stated on the rows; the batches hold exactly the packaged rows in order, at most 25 each |
| Relayer.ListsInOrder | packages/apps/relayer/src/relayer-module/relayer.service.ts:91-296 | the packages and the reported keys keep the order of the rows, one entry at most for each |
| MetaIndexer.Indexer.UpsertTxWithProof | packages/libs/api/src/indexer/indexer.repository.ts:35-125 | accepted exactly when the hash, the transaction and both addresses pass; adds the proof unless a row has its type, hash, signature and signer, the tx row unless its id is taken; keeps the tables sound |
| MetaIndexer.Indexer.MarkValidated | packages/libs/api/src/meta_indexer/meta-indexer.repository.ts:94-101 | marks the unvalidated rows of a signature and counts them |
| MetaIndexer.Indexer.InsertValidatedTx | packages/libs/api/src/meta_indexer/meta-indexer.repository.ts:26-112 | goes through exactly when the record id is free and each signature stands alone; then exactly the rows of its hash are validated |
| MetaIndexer.BuildBatch | packages/libs/api/src/meta_indexer/meta-indexer.repository.ts:147-155 | the Map holds for each hash its rows, in order |
| MetaIndexer.Indexer.ProcessPendingProofs | packages/libs/api/src/meta_indexer/meta-indexer.repository.ts:125-254 | one transaction: a full batch of quorum hashes, or nothing |
| MetaIndexer.Indexer.Process | packages/libs/api/src/meta_indexer/meta-indexer.repository.ts:114-123 | terminates; goes through exactly when the pending quorums are clear, and then leaves no quorum; throws whenever a quorum is late or holds a signature that stands twice; what was committed is always a drain of some quorums, and the tables stay sound |
| MetaIndexer.LateSignersThrow | packages/libs/api/src/meta_indexer/meta-indexer.repository.ts:114-123 | from empty tables, for every requirement, event and two quorums of its signers with different signatures: submit the first, drain, submit the second, drain - the first drain goes through and the second throws |
| MetaIndexer.RepeatedSignatureThrows | packages/libs/api/src/meta_indexer/meta-indexer.repository.ts:94-101 | from empty tables, a quorum in which one signature stands twice makes the drain throw |
| ProofsTable.QuorumFlip | packages/libs/api/src/meta_indexer/meta-indexer.repository.ts:131-144 | validating some hashes leaves exactly the other quorums |
| ProofsTable.ConsistentOrCollision | packages/libs/api/src/indexer/indexer.service.ts:24-59 | behind the gate, rows of one order hash carry one event, or the events of two rows collide |
| ProofsTable.DrainedIsClear | packages/libs/api/src/meta_indexer/meta-indexer.repository.ts:114-123 | a drain of every quorum that went through had free ids and unique signatures |
| ProofsTable.RecordAgrees | packages/libs/api/src/meta_indexer/meta-indexer.repository.ts:159-246 | a record's tx row is the one under the id of its event, and each place of its four lists holds signer, key, type and signature of one row not yet consumed, for the record's event - or the event of that row collides with it |
| ProofsTable.RecordComplete | packages/libs/api/src/meta_indexer/meta-indexer.repository.ts:159-246 | every unvalidated row of the hash has its place in the record, and there are no more places |
| ProofsTable.RecordHasQuorum | packages/libs/api/src/meta_indexer/meta-indexer.repository.ts:131-246 | a record lists at least the minimal number of different signers |
| ProofsHistory.HistorySound | packages/libs/api/src/meta_indexer/meta-indexer.repository.ts:89-254 | after any sequence of submissions and drains every row and record is behind the gate and every validated row went into exactly one record |
| ProofsHistory.HistoryGrows | packages/libs/api/src/meta_indexer/meta-indexer.repository.ts:94-101 | rows and records stay in place; a row changes only by becoming validated, never back |
| ProofsHistory.ProofsConsumedOnce | packages/libs/api/src/meta_indexer/meta-indexer.repository.ts:159-246 | at every point of a history the records can be assigned pairwise disjoint lists of rows that cover the validated rows, so the validated rows are as many as the signers listed |
| ProofsHistory.AccountedDrain | packages/libs/api/src/meta_indexer/meta-indexer.repository.ts:159-246 | a drain lists only rows no record listed before, and no row in two of its records |
| ProofsHistory.RecordedIsLate | packages/dev/database/schema/migrations/main_db/1702978987179_validated_tx/up.sql:7-9 | every quorum for an order hash that already has a record is late, or the events of that record and of one of the quorum's rows collide |
| ProofsHistory.LateBlocks | packages/dev/database/schema/migrations/main_db/1702978987179_validated_tx/up.sql:7-9 | no drain ever handles a late quorum, for every table and requirement |
| ProofsHistory.LateNotClear | packages/dev/database/schema/migrations/main_db/1702978987179_validated_tx/up.sql:7-9 | a late quorum is never clear: its record id is taken |
| ProofsHistory.LateForever | packages/libs/api/src/meta_indexer/meta-indexer.repository.ts:114-123 | once a recorded order hash has a quorum again, that quorum stays pending and late through every later submission and drain, so no drain goes through, or the tables hold a record and a row of that hash with colliding events |
| ProofsHistory.TiedBlocks | packages/libs/api/src/meta_indexer/meta-indexer.repository.ts:94-101 | two unvalidated rows with one signature: once the hash of one has a quorum, no drain handles the hash of either |
| ProofsHistory.TiedNotClear | packages/libs/api/src/meta_indexer/meta-indexer.repository.ts:94-101 | such a quorum is never clear: the update of that signature would hit two rows |
| ProofsHistory.TiedForever | packages/libs/api/src/meta_indexer/meta-indexer.repository.ts:114-123 | and that stays so through every later submission and drain |
| ProofsHistory.ClearExactly | packages/libs/api/src/meta_indexer/meta-indexer.repository.ts:114-123 | the quorums of reachable tables are clear exactly when none of their hashes has a record and none holds a signature that stands twice - or the tables hold a record and a pending row of a quorum hash with colliding events, or a pending row whose record id collides with another's |
| Deploy.DeployOrderTopological | packages/libs/brc20-indexer/src/operations/deployContracts.ts:28-44 | for an acyclic table the order exists exactly when nothing needed is missing or depends on executor-dao; it lists exactly the wanted contracts and all they need, once each, dependencies first |
| Deploy.DeployFailure | packages/libs/brc20-indexer/src/operations/deployContracts.ts:31-43 | a failure names a contract at or below the wanted ones that is missing, or one that depends on executor-dao |
| Deploy.FindDepsExact | packages/libs/brc20-indexer/src/operations/deployContracts.ts:31-43 | the depth-first walk fails exactly on a broken contract below, and otherwise lists all below in post-order |
| Deploy.UniqKeepsOrder | packages/libs/brc20-indexer/src/operations/deployContracts.ts:44-44 | keeping first occurrences keeps dependencies first |
| LineCode.HashCode | packages/libs/brc20-indexer/src/operations/processOperations.ts:579-588 | the wrapping loop is the base-31 polynomial plus 2^31 modulo 2^32 |
| LineCode.LineCodesCollideExactly | packages/libs/brc20-indexer/src/operations/processOperations.ts:608-614 | two lines of one contract share a code exactly when 2^32 divides p (31^m - 31^n) + P - Q, with p the polynomial of the name part, m and n the digit counts and P and Q the polynomials of the two line numbers |
| LineCode.LineCodesDistinct | packages/libs/brc20-indexer/src/operations/processOperations.ts:608-614 | two lines of one contract with equally many digits, up to six, get different codes |
| LineCode.OddDigitsDistinct | packages/libs/brc20-indexer/src/operations/processOperations.ts:608-614 | lines whose digit sums differ in parity get different codes under every name, whatever their digit counts |
| LineCode.LineCodesCanCollide | packages/libs/brc20-indexer/src/operations/processOperations.ts:608-614 | a concrete contract name for which two lines of different digit counts share a code |

## Left out

- Registry writes by others: registry v1-01 also lets its owner and other operators write its maps directly; the
  oracle's runs contain only its own writes and the registry's governance calls.
- Oracle over registry v1-02: later oracle revisions call v1-02 with the same logic; the state machine is stated over
  v1-01.
- Bitcoin library before v1-03: parse-wtx and parse-tx of v1-01 and v1-02 do not check for leftover bytes or the segwit
  flags; the mined check, which calls neither, is the same.
- List bounds of the contract: the state machine takes batches and pack lists of any length; the bounds of 25 and 10
  are stated on the relayer's side.
- 128-bit overflow: modelled for the Merkle path and the validator counter only. A cursor index near 2^128,
  which no parser produces, would panic in the contract.
- Buffers shorter than 32 bytes in reverse-buff32: every caller passes 32 bytes, and the model takes no others.
- Event printing, consensus serialization, address codecs and the secp256k1 and SHA-256 algorithms.
- The mock header map: the header hash by height is a parameter.
- Relayer.SyncOnce: rows are handled one after the other; the source runs up to 25 checks at a time, so the order
  of its lists may differ. Remote calls that keep failing and the text of error messages are not modelled.
- Relayer.GetMajorityProofs: hashes are compared as bytes; the source keys a JavaScript object with their hex
  form, which keeps insertion order for 32-byte hashes.
- MetaIndexer.Indexer.SelectPending: rows come in table order; the query orders them by hash and leaves the order
  inside a hash open, which only affects the order of a record's lists.
- MetaIndexer.Indexer.UpsertTxWithProof: numeric column ranges and derived address columns are not modelled.
- Scheduler: sleeps, puppet kicks, multicast resends, alerts and replace-by-fee timing; an attempt is one reply,
  whatever kind of operation it sends, and an error without a message is not modelled.
- Deploy: a cyclic table makes the source recurse without end; the model asks for a rank.
- Validator pagination, HTTP, logging, telemetry, command line.
