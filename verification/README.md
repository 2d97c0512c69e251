# Heimdall: a verified model of its consensus core

Heimdall is a CometBFT application: validators attach vote extensions to their precommits,
the next proposer packs them into a block, every validator checks them, and one block later
PreBlocker tallies them, executes the approved side txs, records milestones and keeps the
schedule of Bor block producers. Beside the chain, a bridge follows the root chain and submits
checkpoints. This project models the parts of that machinery whose correctness is an argument
across several functions or over whole runs, and proves it.

`dafny verify dfyconfig.toml` checks everything.

| files | what they model |
|---|---|
| `VotingPower`, `Messages`, `VoteExtensions` | validator set, votes, quorum arithmetic |
| `ValidateVotes`, `FilterVotes`, `HonestProposer`, `ProperVotes` | the validators' checks, the proposer's filter, that the two agree, and which votes get through |
| `TallyVotes`, `ByteOrder`, `SideTxVerdicts` | aggregation, sorted enumeration, verdicts on side txs |
| `CheckpointVotes`, `SideTxCap` | checkpoint signatures and post handlers; the cap on side txs from proposal to answer |
| `Varints`, `WireCodec`, `CodecRoundTrip`, `CodecLoops`, `CodecReaders` | the generated vote-extension codec: format, laws, and the in-place loops proved against it |
| `SpanSchedule`, `SpanRuns`, `SpanLaws`, `SpanClocks`, `SpanApp` | the producer schedule as a state machine, its invariants over runs, when and for whom it acts, and the keeper-updating methods proved against it |
| `BlockRanges`, `RootChainCursor` | the root-chain event cursor |
| `CheckpointSlicing` | cutting the child chain into checkpoints, in wrapping uint64 arithmetic |
| `BorBatch` | the flat JSON-RPC batch |
| `ChainIdentity` | agreeing on the Bor chain id, as interleaved atomic steps |

Code that changes state is modelled by methods (in `SpanApp` and `RootChainCursor` by classes)
whose contracts give the exact outcome; the laws are lemmas about the specification those
contracts refer to. Signature checks, codecs of other modules, hashes and the milestone
checks are functions in an environment (`Env`, `TxEnv`, `ProposalEnv`, `MilestoneCodec`), so
every statement holds for whatever they compute. Only Keccak is assumed to be injective.
Whether RPC calls, stores and clocks answer, and mostly what, is arbitrary.

## Where the code does less than one would expect

Each of these is proved: the exact condition under which the code meets the expectation and,
where a member is named for it, a concrete input on which it does not.

- An honest proposal is accepted if and only if no vote with an illegal block-id flag was
  stripped before its flag was looked at (`HonestProposerAccepted`): the size filter and the
  unknown-field filter come before the flag check, so such a vote leaves an entry that
  is not recognised as a placeholder, and its flag is refused (`IllegalFlagGetsRejected`).
- A pending-stall rotation keeps the producers of finalized blocks if and only if the agreed
  head is not behind the last milestone (`FinalizedKeptIffHeadNotBehind`,
  `HeadBehindMilestoneMovesFinalized`).
- A pending-stall rotation never puts a failed producer back. The other path falls back on the
  elected list without excluding anybody: no planned downtime can make it pick a failed
  producer if and only if an elected candidate is active, not failed and not the current
  producer, or no elected candidate but the current producer is failed (`FailedSparedIff`,
  `CurrentRotationMayReselectFailed`).
- With a milestone past the last span the distance in checkAndRotateCurrentSpan wraps. The
  span is still not empty and at most two span lengths long (`SpanEndIsTight`), but the loop
  first walks through almost all 64-bit numbers (`WrappedLoopIsLong`). In admissible runs this
  never happens (`RunwayAlways`).
- A value comes back from its encoding exactly if and only if it holds no empty slice that is
  not nil (`ExactRoundTrip`).
- The root-chain cursor ignores an error of the store's Has. The record of handled blocks then
  stays free of gaps if and only if the target is the very next block
  (`GaplessIffContinues`, `HasErrorSkipsOrRewinds`).
- The checkpoint proposer keeps to the maximum length for every chain if and only if one more
  than the maximum is not a multiple of the average, or no longer fits in 64 bits
  (`CapHoldsIff`). What it proposes ends at or below its confirmed head if and only if that
  head has reached the slice's start (`ProposalBehindHeadIff`), and below the true confirmed
  head if and only if there are enough confirmations at all (`SendCheckpointToHeimdall`), as
  the test for a head of zero misses a negative difference (`SlicingExamples`).
- shouldSendCheckpoint reads the root chain some time before the transaction arrives. An
  arriving checkpoint keeps the tiling if and only if it starts at the next child block
  (`TilingIffContinued`), which it does if and only if no other was committed in between
  (`RefusedIffOvertaken`); without the contract's guard two senders overlap
  (`CheckAloneLetsTwoIn`).
- The chain identity is safe because probes run in rounds; two concurrent probes of the
  primary could replace an anchored identity (`TwoPrimariesReplaceTheAnchor`).

## Model

| member | source | states |
|---|---|---|
| VotingPower.PowerAdd | app/vote_ext_utils.go:200-205 | counting one more voter adds exactly its canonical power, nothing if it is not in the set |
| VotingPower.PowerUnion | app/vote_ext_utils.go:603 | power is a measure: union and intersection together weigh as much as both groups |
| VotingPower.QuorumIntersection | app/vote_ext_utils.go:603 | two groups above the two-thirds threshold share members with more than a third of all power |
| VotingPower.DisjointQuorums | app/vote_ext_utils.go:603 | disjoint groups weigh at most the total and cannot both pass the threshold |
| VotingPower.MajorityIsTwoThirds | app/vote_ext_utils.go:603 | a group passes the threshold exactly if it holds more than two thirds of all power |
| VotingPower.TotalIsEverybody | app/vote_ext_utils.go:586 | the total is what all members hold together |
| VotingPower.PowerOfOne | app/vote_ext_utils.go:200-205 | a member alone holds its own power |
| VoteExtensions.ValidateSideTxResponses | app/vote_ext_utils.go:745-772 | accepts exactly the lists of at most fifty distinct 32-byte hashes with legal votes; otherwise names the first offending hash |
| VoteExtensions.VotersAre | app/vote_ext_utils.go:645-742 | who is counted for a criterion: exactly the addresses of committed, not stripped votes that meet it |
| VoteExtensions.ExclusiveCriteria | app/vote_ext_utils.go:686-735 | with one vote per validator, criteria no vote meets together select disjoint groups |
| VoteExtensions.OneAnswerPerTx | app/vote_ext_utils.go:745-772 | a well-formed extension gives one answer per tx |
| VoteExtensions.PlaceholderIff | app/vote_ext_utils.go:802-808 | a placeholder is exactly a committed vote with nothing left to strip |
| ValidateVotes.ReferenceDecides | app/vote_ext_utils.go:119-128 | the running block-hash comparison, in which nil means none seen yet, is the pairwise agreement of all hashes |
| ValidateVotes.ConsistentExtends | app/vote_ext_utils.go:81-206 | one more vote keeps a list acceptable exactly if it passes its own checks, its voter is new and it carries the reference hash |
| ValidateVotes.CheckVote | app/vote_ext_utils.go:81-206 | the loop body: continues exactly if the extended prefix is consistent, and keeps voters, reference hash and power sum |
| ValidateVotes.ValidateVoteExtensions | app/vote_ext_utils.go:58-207 | returns no error exactly on the lists described by Accepts: enabled, empty at the initial height, else consistent and above two thirds of canonical power |
| ValidateVotes.ValidateVoteExtensionsCompleteness | app/vote_ext_utils.go:212-242 | accepts exactly if every validator that committed the last block is last shown as committing |
| FilterVotes.JudgeVote | app/vote_ext_utils.go:301-525 | the first loop's body: an error exactly if the votes so far cannot be screened; otherwise it keeps the seen set, the power per block hash and the votes emitted |
| FilterVotes.PowerOneMore | app/vote_ext_utils.go:522-524 | one more screened vote adds its power to the block hash it was kept with, and to no other |
| FilterVotes.FindMajority | app/vote_ext_utils.go:533-540 | the map walk, in any order, finds a hash above the threshold exactly if there is one |
| FilterVotes.FilterByBlockHash | app/vote_ext_utils.go:552-578 | the second loop keeps what carries the majority hash and strips or drops the rest, in order |
| FilterVotes.FilterVoteExtensions | app/vote_ext_utils.go:245-578 | fails exactly in the listed cases; otherwise the output is the two passes over the votes for a block hash above two thirds |
| FilterVotes.BackersAre | app/vote_ext_utils.go:522-524 | the power counted for a hash comes from exactly the validators whose vote was kept with it |
| FilterVotes.QuorumIsUnique | app/vote_ext_utils.go:528-540 | at most one block hash passes the threshold, so the order of the map walk and its break do not matter |
| HonestProposer.EntriesOf | app/vote_ext_utils.go:290-578 | every entry of an honest block is stripped or was kept with the majority hash, and all flags are legal exactly if no illegal one was stripped unseen |
| HonestProposer.VotersOf | app/vote_ext_utils.go:290-578 | the active entries are exactly the backers of the majority hash, each once |
| HonestProposer.AddressesOf | app/vote_ext_utils.go:290-578 | committed validators are preserved exactly, no address is added, none repeated |
| HonestProposer.HonestProposerAccepted | app/vote_ext_utils.go:58-578 | whatever the filter emits is accepted by ValidateVoteExtensions, except exactly if a vote with an illegal flag was stripped before its flag was looked at |
| HonestProposer.IllegalFlagGetsRejected | app/vote_ext_utils.go:355-372 | a concrete vote list whose filtered form is rejected for an illegal flag |
| HonestProposer.HonestProposerComplete | app/vote_ext_utils.go:212-578 | whatever the filter emits passes the completeness check against the votes it was made from |
| HonestProposer.CompleteIff | app/vote_ext_utils.go:212-242 | for distinct addresses, completeness means that everybody who committed the last block commits in the list |
| ProperVotes.KeptIffProper | app/vote_ext_utils.go:301-525 | the first loop keeps exactly the votes of members that validation accepts and that, after Phuket, have the right sizes and a valid non-rp signature, with their block hash |
| ProperVotes.EmittedIffProper | app/vote_ext_utils.go:245-578 | the active entries of a block are exactly the proper votes for its majority hash, unchanged; every other committed vote leaves its placeholder |
| ProperVotes.QuorumOfProperVotes | app/vote_ext_utils.go:522-545 | a block hash has the majority exactly if the members with a proper vote for it hold more than two thirds |
| ProperVotes.FilterFailsOnlyWithoutQuorum | app/vote_ext_utils.go:245-578 | no malformed vote can keep an honest proposer from its block: with one vote per address the filter fails only without a majority hash |
| ProperVotes.FatalMeansMissing | app/vote_ext_utils.go:335-520 | after Phuket a single vote stops the filter only if its address, a member's key or the bytes to sign cannot be made |
| ProperVotes.SeenIff | app/vote_ext_utils.go:440-470 | who is recorded as seen: whoever's vote is committed, of the right sizes and well made, kept or not |
| ProperVotes.LeavesNothingIff | app/vote_ext_utils.go:355-400 | after Phuket only votes that are not committed leave no entry, as far as their flag is looked at |
| ProperVotes.ShareIsLargest | app/vote_ext_utils.go:268-295 | the per-validator share is the largest with which all, with the reserve, fit into half of the block; the limit is that share between its bounds |
| HonestProposer.PayloadPerVoter | app/vote_ext_utils.go:268-355 | the payload of a block is at most the number of distinct voters times a share |
| HonestProposer.PayloadBound | app/vote_ext_utils.go:268-355 | unless the limit was raised to the minimum, all extensions of a block together take at most half of the allowed bytes |
| TallyVotes.CreditResponses | app/vote_ext_utils.go:715-737 | one voter's power is credited to exactly its answers; fails exactly on an illegal or repeated answer |
| TallyVotes.CountVote | app/vote_ext_utils.go:653-739 | the loop body: fails exactly if the extended list is not countable; otherwise the ballots aggregate one vote more |
| TallyVotes.AggregateVotes | app/vote_ext_utils.go:645-742 | fails exactly on uncountable votes; otherwise each count is the canonical power of the set of voters who gave that answer |
| ByteOrder.SortKeys | app/vote_ext_utils.go:593-599 | lists the voted hashes in ascending order, each once |
| ByteOrder.LexMeans | app/vote_ext_utils.go:599 | the order is the lexicographic one: prefixes first, then the first differing byte |
| ByteOrder.EnumerationIsUnique | app/vote_ext_utils.go:593-599 | there is only one such list, so all validators walk the map alike |
| SideTxVerdicts.Partition | app/vote_ext_utils.go:601-639 | the threshold loop: errs exactly if the guard finds more votes than power; otherwise every hash is in the list of its verdict |
| SideTxVerdicts.Tallying | app/vote_ext_utils.go:582-642 | fails exactly when Tallies says; otherwise approved, rejected and skipped partition the voted txs by who voted |
| SideTxVerdicts.TallyIsDeterministic | app/vote_ext_utils.go:582-642 | any two correct tallies are equal, order included |
| SideTxVerdicts.PowerWithinTotal | app/vote_ext_utils.go:610-617 | on consistent votes YES, NO and UNSPECIFIED never exceed the total, so the guard cannot fire |
| SideTxVerdicts.AcceptedVotesTally | app/vote_ext_utils.go:58-207 | whatever validation accepts above the enable height, the tally processes without error |
| SideTxVerdicts.OppositeVerdicts | app/abci.go:690-691 | if one accepted commit approves a tx and another rejects it, validators with more than a third of the power signed both answers |
| SideTxVerdicts.ApprovalsOverlap | app/vote_ext_utils.go:618-636 | two txs approved in one tally share YES voters with more than a third of the power |
| SideTxVerdicts.VerdictIsUnambiguous | app/vote_ext_utils.go:618-636 | on accepted votes the YES and the NO threshold exclude each other |
| SideTxVerdicts.VerdictsAreTwoThirds | app/vote_ext_utils.go:601-639 | a voted tx is approved exactly if its YES voters hold more than two thirds of all power, otherwise rejected exactly if its NO voters do, otherwise skipped |
| SideTxVerdicts.ApprovedHaveVoters | app/vote_ext_utils.go:645-742 | a tx with more than two thirds behind an answer has been voted on |
| SideTxVerdicts.ValidationIsTallyAndMore | app/vote_ext_utils.go:58-207 | the validating and the aggregating loop agree: votes are consistent exactly if they aggregate, no voter repeats, and what only validation checks holds |
| SideTxVerdicts.AcceptedIff | app/vote_ext_utils.go:58-207 | above the enable height votes are accepted exactly if consistent and from more than two thirds of all power; at it exactly if there are none |
| CheckpointVotes.BackingIsPower | app/vote_ext_utils.go:967-1036 | power counted per vote is the power of the set of voters who sent the extension |
| CheckpointVotes.Heaviest | app/vote_ext_utils.go:1008-1026 | finds the largest positive entry of the power map, of several the one with the least hash; none exactly if all are zero |
| CheckpointVotes.MajorityNonRp | app/vote_ext_utils.go:967-1036 | fails exactly on unresolvable votes, or after Phuket without a two-thirds majority; otherwise returns the best-backed extension with the least hash |
| CheckpointVotes.LeaderIsUnique | app/vote_ext_utils.go:1008-1026 | the best-backed extension with the least hash is unique, before Phuket too |
| CheckpointVotes.FindCheckpointTx | app/vote_ext_utils.go:1127-1155 | returns the hash of the first tx with a checkpoint message that signs these bytes, none exactly if there is no such tx |
| CheckpointVotes.GetCheckpointSignatures | app/vote_ext_utils.go:1159-1176 | one signature per vote that carries the extension, in order, after Zurich from committed votes only |
| CheckpointVotes.SignaturesAre | app/vote_ext_utils.go:1159-1176 | a signature is stored exactly if some such vote carried it |
| CheckpointVotes.RunPostHandler | app/abci.go:877-908 | the one message whose post handler runs: the first that has one and is not an unsigned checkpoint |
| CheckpointVotes.RunPostHandlers | app/abci.go:865-912 | fails exactly on an undecodable tx; otherwise runs one handler per approved tx in order |
| CheckpointVotes.HandledAre | app/abci.go:865-912 | a handler that ran belongs to an approved, decodable tx of the block |
| CheckpointVotes.FirstHandledIsFirst | app/abci.go:877-908 | the handler that runs is the first that may, and none runs only if none may |
| CheckpointVotes.HandledIff | app/abci.go:865-912 | exactly which handlers run: in every approved tx that decodes, the first that has one and is no checkpoint other than the signed one |
| CheckpointVotes.HandledInOrder | app/abci.go:865-912 | handlers run in block order, at most one per tx |
| CheckpointVotes.ExecuteSideTxs | app/abci.go:819-912 | succeeds exactly on decodable txs with (before Phuket) resolvable votes; then what is stored and run follows from the majority extension and its tx |
| CheckpointVotes.MajorityIsUnique | app/vote_ext_utils.go:1005-1036 | on accepted votes no two extensions have a majority |
| CheckpointVotes.ExecutionIsDeterministic | app/abci.go:819-912 | on any votes every validator stores the same signatures and runs the same handlers |
| CheckpointVotes.ApprovedTxIsExecuted | app/abci.go:865-912 | every approved side tx other than a checkpoint is executed, whatever becomes of the checkpoints |
| CheckpointVotes.SignedCheckpointIsExecuted | app/abci.go:819-912 | the first tx whose checkpoint more than two thirds have signed gets, if approved, its signatures stored and its handler run |
| CheckpointVotes.SignersAreVoters | app/vote_ext_utils.go:1159-1176 | after Zurich the stored signatures come from exactly the active voters who sent the extension |
| CheckpointVotes.SignaturesFromCommits | app/vote_ext_utils.go:1159-1176 | after Zurich a signature is stored exactly for each committed vote with the extension |
| CheckpointVotes.SignersHoldMajority | app/vote_ext_utils.go:1159-1176 | on accepted votes the stored signers of a majority extension hold more than two thirds of the power |
| CheckpointVotes.CheckpointTiedToSignatures | app/abci.go:819-912 | after Zurich at most one checkpoint message is handled per block; if one is, its tx was approved and the stored signers hold more than two thirds on an extension whose tail is exactly its sign bytes |
| SideTxCap.CountSideHandlers | sidetxs/ante_decorator.go:35-43 | counts the messages with a side handler |
| SideTxCap.PrepareTxs | app/abci.go:89-163 | takes txs greedily in order and fails exactly on a fitting tx that cannot be decoded; the result fits the bytes and meets the side-tx conditions of ProcessProposal |
| SideTxCap.LeftOutForAReason | app/abci.go:89-163 | a tx is taken exactly unless it does not fit, has several side messages, would exceed fifty, or is unwanted |
| SideTxCap.AcceptableIsProposed | app/abci.go:89-163 | a list that ProcessProposal accepts, that fits and holds nothing unwanted is proposed in full |
| SideTxCap.ProcessTxs | app/abci.go:256-276 | accepts exactly the lists of decodable txs with one side message at most each and, after Zurich, fifty at most in all |
| SideTxCap.AnswerTx | app/abci.go:410-445 | one answer per side message of a tx, cut off at the cap |
| SideTxCap.AnswerTxs | app/abci.go:390-447 | the answers to the txs reached before the deadline, cut off at the cap; fails exactly on an undecodable tx reached before the cap |
| SideTxCap.AnswersToMany | app/abci.go:390-447 | for distinct txs with one side message at most there are as many answers as side messages, well formed and for distinct txs |
| SideTxCap.AnswerStandsFor | app/abci.go:410-436 | each answer is the vote on the side message it stands for |
| SideTxCap.AnswerOfTx | app/abci.go:390-447 | in a block with one side message per tx at most, the answer for a tx is the vote on that message, in its place among the side txs |
| SideTxCap.TruncatedIsPrefix | app/abci.go:438-445 | the first fifty answers are kept |
| SideTxCap.ResponsesAccepted | app/abci.go:390-447 | for any block that passes ProcessProposal the answers are complete for the txs reached, a prefix of all answers, and accepted by every validator |
| SideTxCap.OneCheckpointFromCap | app/abci.go:256-276 | a block that passes ProcessProposal holds at most one checkpoint message per tx |
| SideTxCap.CheckpointTiedInAcceptedBlock | app/abci.go:819-912 | the tie of CheckpointTiedToSignatures for every block that passed ProcessProposal after Zurich |
| Varints.SovIsLength | sidetxs/vote_ext.pb.go:376-378 | the size computed from the bit length is the number of bytes of the varint |
| Varints.VarintAtMostTen | sidetxs/vote_ext.pb.go:323-333 | a uint64 takes one to ten bytes |
| Varints.EncodeVarint | sidetxs/vote_ext.pb.go:323-333 | writes exactly the varint right before the offset and leaves the rest of the buffer alone |
| Varints.ReadIsLocal | sidetxs/vote_ext.pb.go:388-401 | bytes behind a varint do not affect how it is read |
| Varints.ReadWhatWasWritten | sidetxs/vote_ext.pb.go:388-401 | reading a written varint gives the number and uses exactly its bytes |
| Varints.OrCollects | sidetxs/vote_ext.pb.go:388-401 | the shift and bitwise or of a step is an addition modulo 2^64, as the groups of bits do not overlap |
| Varints.ReadVarintLoop | sidetxs/vote_ext.pb.go:388-401 | the shifting loop reads the same bytes as the recursive definition and its value modulo 2^64, and fails on the same inputs |
| WireCodec.SkipIsLocal | sidetxs/vote_ext.pb.go:658-735 | bytes behind an unknown field do not affect how it is skipped |
| WireCodec.FieldIsLocal | sidetxs/vote_ext.pb.go:382-553 | bytes behind a field do not affect how it is decoded |
| WireCodec.ConcatenationMerges | sidetxs/vote_ext.pb.go:382-553 | decoding a concatenation is decoding the second part into the result of the first |
| CodecRoundTrip.ResponseRoundTrip | sidetxs/vote_ext.pb.go:555-657 | decoding an encoded response gives it back, for every result and hash, up to nil for empty |
| CodecRoundTrip.ResponsesRoundTrip | sidetxs/vote_ext.pb.go:488-521 | decoding the repeated field appends the responses in order |
| CodecRoundTrip.ExtensionRoundTrip | sidetxs/vote_ext.pb.go:382-553 | decoding an encoded extension gives it back, negative heights included, up to nil for empty |
| CodecRoundTrip.ExactRoundTrip | sidetxs/vote_ext.pb.go:382-553 | it comes back exactly if and only if it holds no empty slice that is not nil |
| CodecRoundTrip.SkipsField | sidetxs/vote_ext.pb.go:658-735 | the skipper skips exactly one well-formed field, groups nested to any depth included |
| CodecRoundTrip.UnknownFieldIgnored | sidetxs/vote_ext.pb.go:538-550 | a well-formed unknown field between two parts of an input changes nothing |
| CodecRoundTrip.ResponseIsFields | sidetxs/vote_ext.pb.go:303-321 | the encoding of a response is its fields 1 and 2 under their tags, those without a value left out |
| CodecRoundTrip.ExtensionIsFields | sidetxs/vote_ext.pb.go:242-286 | the encoding of an extension is its fields 1 to 4 under their tags, in order, responses repeated |
| CodecRoundTrip.RepeatedFields | sidetxs/vote_ext.pb.go:412-533 | a repeated single field takes its last value, a response is added, a milestone merged |
| CodecRoundTrip.RepeatedResponseFields | sidetxs/vote_ext.pb.go:584-635 | the same for a response |
| CodecRoundTrip.WrongWireTypeRejected | sidetxs/vote_ext.pb.go:412-533 | a known field of the wrong wire type is an error, whatever follows |
| CodecLoops.ResponseSize | sidetxs/vote_ext.pb.go:360-374 | Size is the length of the encoding |
| CodecLoops.ExtensionSize | sidetxs/vote_ext.pb.go:334-358 | Size is the length of the encoding |
| CodecLoops.MarshalResponse | sidetxs/vote_ext.pb.go:303-321 | fills the buffer backward with exactly the encoding and keeps what is behind it |
| CodecLoops.MarshalResponses | sidetxs/vote_ext.pb.go:257-272 | the backward loop over the responses writes the repeated field in forward order |
| CodecLoops.MarshalToSizedBuffer | sidetxs/vote_ext.pb.go:242-286 | returns the length of the encoding, which ends the buffer |
| CodecLoops.Marshal | sidetxs/vote_ext.pb.go:227-235 | a buffer of Size bytes is filled down to offset zero with the encoding |
| CodecReaders.ReadRecord | sidetxs/vote_ext.pb.go:415-445 | the checks against negative lengths and overflow accept exactly the records that lie inside the input |
| CodecReaders.SkipDelimited | sidetxs/vote_ext.pb.go:694-717 | the unchecked end of a skipped record lies inside the input exactly if the record does |
| CodecReaders.SkipOver | sidetxs/vote_ext.pb.go:677-725 | moves the index past one payload exactly as specified; out of range exactly if the payload is |
| CodecReaders.SkipVoteExt | sidetxs/vote_ext.pb.go:658-735 | terminates on every input, never reads outside it; a result inside the input is exactly the length of the field |
| CodecReaders.UnmarshalKnown | sidetxs/vote_ext.pb.go:412-537 | decodes one known field as specified, and fails on the same inputs |
| CodecReaders.Unmarshal | sidetxs/vote_ext.pb.go:382-657 | for every input terminates without reading outside it and agrees with the recursive decoder |
| SpanSchedule.OwnerOfNew | x/bor/keeper/veblop.go:67-89 | after appending a span, its blocks are owned by its producer and all others as before |
| SpanSchedule.SelectionHonoursExclusion | x/bor/keeper/veblop.go:245-323 | a producer selected with an exclusion set is an elected candidate outside that set |
| SpanSchedule.ShrinkIsTight | app/abci.go:1043-1045 | the distance stays if it is at most two span lengths, and otherwise ends between one and two |
| SpanSchedule.ShrinkIsCongruent | app/abci.go:1043-1045 | it is a whole number of span lengths below the old distance |
| SpanSchedule.RotatedEnd | app/abci.go:1041-1052 | for any milestone both uint64 loops stop, with the specified end, wrapped distance included |
| SpanSchedule.SpanEndIsTight | app/abci.go:1041-1052 | whatever the milestone, the span is not empty and at most two span lengths long, one behind a milestone at the schedule's end |
| SpanSchedule.WrappedLoopIsLong | app/abci.go:1043-1045 | with a milestone past the last span the loop covers almost the whole 64-bit range |
| SpanRuns.MilestoneKeepsRunway | app/abci.go:938-977 | a milestone appends at most one span, right behind the last and one span length long, and keeps the runway |
| SpanRuns.CurrentRotationShape | app/abci.go:981-1105 | a forced span starts right behind the milestone, is not empty, at most two span lengths long, and ends a whole number of lengths before the old end |
| SpanRuns.PendingRotationShape | app/pending_stall.go:113-217 | a span minted from the pending head covers the old runway behind the head; its producer is neither the stalled one nor a failed one; the stalled one becomes failed |
| SpanRuns.StepKeepsRunway | app/abci.go:707-810 | every step keeps: all scheduled blocks are owned, and the last milestone ends before the last span |
| SpanRuns.RunwayAlways | app/abci.go:707-810 | in every state of every admissible run the runway holds; in particular the milestone never passes the last span and the subtraction never wraps |
| SpanRuns.OnlySelectionFails | app/abci.go:938-977 | on a runway producer lookups always succeed: the only error is a future span without a selectable producer or a failing store |
| SpanRuns.PendingRotationOwnership | app/pending_stall.go:113-217 | a pending-stall rotation changes the owner exactly of the blocks behind the head up to the new end |
| SpanRuns.FinalizedKeptIffHeadNotBehind | app/pending_stall.go:113-217 | it leaves finalized blocks with their producers if and only if the head is not behind the milestone |
| SpanRuns.HeadBehindMilestoneMovesFinalized | app/pending_stall.go:113-217 | a concrete schedule in which a head behind the milestone moves finalized blocks |
| SpanRuns.FinalizedOwnersArePermanent | app/abci.go:707-810 | over any run, once a milestone has finalized a block its producer never changes, and milestones never go back |
| SpanRuns.FailedNotReselected | app/pending_stall.go:221-261 | over any run no producer on the failed list is put back before a milestone clears the list: never by a pending-stall rotation, nor by the other one under the condition of FailedSparedIff |
| SpanRuns.CurrentRotationPicks | app/abci.go:1054-1074 | whom an overdue rotation selects: the first candidate not down, among the active ones neither failed nor current, else among all but the current one |
| SpanRuns.CurrentRotationSparesFailed | app/abci.go:1054-1074 | under that condition such a rotation does not put a failed producer back |
| SpanRuns.FailedSparedIff | app/abci.go:1054-1074 | no planned downtime can make it put a failed producer back if and only if a good candidate exists or no candidate but the current producer is failed |
| SpanRuns.CurrentRotationMayReselectFailed | app/abci.go:1054-1074 | a concrete schedule in which it selects a failed producer |
| SpanLaws.MilestoneSchedules | app/abci.go:938-977 | a milestone appends a span exactly if it has reached the start of the last one, so that a span lies ahead of it; it clears the failed producers and activates its supporters |
| SpanLaws.StepKeepsSpanAhead | app/abci.go:707-810 | every step keeps a span ahead of the milestone as long as no head behind the milestone is agreed on |
| SpanLaws.SpanAlwaysAhead | app/abci.go:707-810 | from the first milestone of a run on a scheduled span always lies wholly ahead of the last milestone |
| SpanLaws.MilestoneTakenIff | app/abci.go:717-733 | a majority milestone is recorded exactly unless a span was created in the block before |
| SpanLaws.NoMilestoneRightAfterSpan | app/abci.go:717-733 | in no run does a block record a milestone right after one that created a span |
| SpanLaws.CurrentRotationFiresIff | app/abci.go:1006-1103 | the current span is rotated exactly if the milestone is more than five (later ten) heights back and another candidate is elected; otherwise nothing changes |
| SpanLaws.CurrentRotationOwnership | app/abci.go:1053-1103 | it moves exactly the blocks behind the milestone up to its end to another producer, records the old one as failed and sets the clock ahead by ten (later twenty) |
| SpanLaws.PendingRotationFiresIff | app/pending_stall.go:77-217 | a pending-stall rotation fires exactly if the clock has run on this head for more than five (later ten) heights and a candidate is neither failed nor stalled |
| SpanLaws.SelectionExists | x/bor/keeper/veblop.go:245-323 | with the current producer excluded somebody is selected exactly if an elected candidate is not excluded |
| SpanLaws.StalledIsNextOwner | app/pending_stall.go:165-190 | the stalled producer is the owner of the next block, or of the last one at the schedule's end |
| SpanLaws.PendingHeadIsTracked | app/pending_stall.go:77-105 | an agreed head within the schedule is tracked from its block on; a new one restarts the clock and does nothing else |
| SpanLaws.PendingHoldsRotation | app/abci.go:780-809 | with a pending milestone the current span is not rotated; without one its rotation decides |
| SpanLaws.SelectionPrefers | x/bor/keeper/veblop.go:245-323 | active candidates not excluded come first, and among them those not planned to be down |
| SpanLaws.NextInTurn | x/bor/keeper/veblop.go:519-563 | the candidate behind the current producer is next, round and round, unless it is planned to be down |
| SpanLaws.DownIff | x/bor/keeper/veblop.go:489-563 | a producer is down for a span exactly if its planned downtime meets it |
| SpanLaws.FutureSpanRecovers | app/abci.go:938-977 | with nobody elected a future span is appended exactly after the fork and with somebody to recover |
| SpanClocks.EveryStepIsAClockStep | app/abci.go:1006-1103 | all that any step does to the two clocks, and when it may rotate |
| SpanClocks.RotationsAreSpaced | app/abci.go:1006-1103 | any two forced rotations of a run, by either path, are more than the threshold apart, with one height to spare |
| SpanClocks.RotationsAreBuffered | app/pending_stall.go:237-293 | without a milestone, with an unchanged head and a running clock, they are more than buffer plus threshold apart |
| SpanClocks.ClockHasStart | app/pending_stall.go:77-105 | a running stall clock was started by an observation of the tracked head, and nothing else was observed since |
| SpanClocks.DebounceMovesForward | app/pending_stall.go:237-293 | a rotation moves a running clock strictly forward and keeps its head |
| SpanClocks.StallIsReal | app/pending_stall.go:77-105 | if a pending-stall rotation fires on a head, that head was observed more than the threshold before, and no other since |
| SpanApp.HeimdallApp.FindCurrentProducerID | x/bor/keeper/veblop.go:67-89 | the downward loop finds the newest owner, none exactly if there is none |
| SpanApp.HeimdallApp.CheckAndAddFutureSpan | app/abci.go:938-977 | computes the specified future-span step on the cached context |
| SpanApp.HeimdallApp.CheckAndRotateCurrentSpan | app/abci.go:981-1105 | the whole new store, unchanged on an error or a failed attempt |
| SpanApp.HeimdallApp.DebouncePendingStallClock | app/pending_stall.go:274-293 | changes only the clock's height, and only when it runs after the fork |
| SpanApp.HeimdallApp.PendingRunwayEnd | app/pending_stall.go:146-163 | the growing loop stops above the head or reports that the end would overflow |
| SpanApp.HeimdallApp.RotateSpanFromPendingHead | app/pending_stall.go:113-261 | the whole new store, unchanged on an error or a failed attempt |
| SpanApp.HeimdallApp.CheckAndRotateOnPendingStall | app/pending_stall.go:77-105 | restarts the clock on another head, waits, or rotates, with the whole new store |
| SpanApp.HeimdallApp.PreBlocker | app/abci.go:707-810 | the whole new store and the action taken for every combination of majority, pending support and agreed head; nothing is written on an error |
| BlockRanges.TilesConcat | bridge/listener/rootchain.go:190-211 | what follows a tiled interval extends it exactly if it starts right behind it |
| BlockRanges.TilesCoverOnce | bridge/listener/rootchain.go:190-211 | the ranges of a tiling ascend, do not overlap and hold exactly its blocks |
| RootChainCursor.GaplessIffContinues | bridge/listener/rootchain.go:152-186 | handling a first range for a header keeps the record free of gaps exactly if the header continues at the cursor, and then moves the cursor forward |
| RootChainCursor.HasErrorSkipsOrRewinds | bridge/listener/rootchain.go:153 | concrete headers for which an ignored store error makes the cursor jump ahead or back |
| RootChainCursor.RootChainListener.QueryAndBroadcastEvents | bridge/listener/rootchain.go:257-312 | one query of the range; it fails without handling anything, always so without topics, or handles exactly the known events of the range in order |
| RootChainCursor.RootChainListener.BroadcastEvents | bridge/listener/rootchain.go:297-309 | hands on exactly the logs with a known first topic, in order |
| RootChainCursor.SelectedConcat | bridge/listener/rootchain.go:297-309 | of two answers the logs are selected one after the other |
| RootChainCursor.SelectedOfOne | bridge/listener/rootchain.go:297-309 | a log is selected exactly if its first topic is a known event |
| RootChainCursor.RootChainListener.PersistLastRootBlock | bridge/listener/rootchain.go:247-254 | the cursor moves to the end of the range, or stays |
| RootChainCursor.RootChainListener.ProcessRootChainBlockRange | bridge/listener/rootchain.go:213-245 | under any failures what is handled tiles a beginning of the range, all of it exactly on success; it stops only behind a lost write or before a block that cannot be queried alone; one query without failures, at most 2n-1 for n blocks |
| RootChainCursor.RootChainListener.ProcessChunks | bridge/listener/rootchain.go:188-211 | the same for all chunks of a header together, with chunks of 5000 blocks |
| RootChainCursor.WorkIff | bridge/listener/rootchain.go:127-186 | when there is work: parameters known, enough confirmations, and no cursor, an unreadable one, or one behind the last confirmed block |
| RootChainCursor.WalkedForHeader | bridge/listener/rootchain.go:132-186 | nothing without its confirmations is asked for, and the last confirmed block is reached unless a write is lost or a block cannot be queried |
| RootChainCursor.RootChainListener.ProcessHeader | bridge/listener/rootchain.go:118-212 | works exactly when there is work, from behind the cursor, or from the last confirmed block without one; never queries or passes a block without its confirmations, and reaches the last that has them unless something is lost or fails; the record stays free of gaps exactly if nothing was handled or the header continues at the cursor |
| RootChainCursor.RootChainListener.ProcessHeaders | bridge/listener/rootchain.go:118-212 | over any sequence of headers with working key lookups and any other failures: the handled ranges tile everything up to the cursor, which never moves back; no unconfirmed block is queried or passed; the successful queries are these and retried ones right behind the cursor; all events up to the cursor were handled, exactly once in order if no write was lost, never too few |
| RootChainCursor.HeaderAccounted | bridge/listener/rootchain.go:188-245 | a header that continues at the cursor keeps the account: each successful query was handled, or started right behind the cursor of its time and was not persisted |
| RootChainCursor.BlocksQueried | bridge/listener/rootchain.go:213-245 | every block between the initial and the current cursor lies in a successful query, in one only if no write was lost; no query reaches down to the initial cursor |
| RootChainCursor.CuttingDoesNotMatter | bridge/listener/rootchain.go:188-245 | however chunks and bisection cut an interval, the events handled are those of one query |
| RootChainCursor.EventsHandled | bridge/listener/rootchain.go:188-245 | the events of the successful queries include all events between the two cursors as often as they occur, and are exactly these, in order, if no write was lost |
| CheckpointSlicing.NextExpectedCheckpoint | bridge/processor/checkpoint.go:472-508 | the wrapping uint64 steps compute the specified end; the start is the block behind the last checkpoint, or zero |
| CheckpointSlicing.GuardedIff | helper/call.go:379-388 | the two guards together let through exactly slices of two blocks to the maximum |
| CheckpointSlicing.SliceLength | bridge/processor/checkpoint.go:472-508 | the exact length of every slice of a chain that has reached its start |
| CheckpointSlicing.CapHoldsIff | helper/call.go:379-388 | the root-hash guard accepts every slice exactly if one more than the maximum is not a multiple of the average or overflows |
| CheckpointSlicing.SlicesOfDividingLengths | bridge/processor/checkpoint.go:472-516 | with an average of two or more dividing the maximum, a proposal is made exactly from one average length of blocks on; it is the largest multiple the maximum and the chain allow, and ends at or below the head |
| CheckpointSlicing.ProposalBehindHeadIff | bridge/processor/checkpoint.go:472-516 | a proposal ends at or below the head exactly if the head has reached its start |
| CheckpointSlicing.ProposalIsWhole | bridge/processor/checkpoint.go:472-516 | any proposal, even of a lagging node, is a multiple of an average dividing the maximum, and at most the maximum |
| CheckpointSlicing.SlicingExamples | bridge/processor/checkpoint.go:472-508 | a slice one block too long, a proposal of a lagging node above its head, and one with fewer blocks than confirmations |
| CheckpointSlicing.SendCheckpointToHeimdall | bridge/processor/checkpoint.go:233-270 | skips exactly at a confirmed head of zero; a proposal starts behind the last checkpoint, is at most the maximum long, and ends at or below the confirmed head exactly if there are enough confirmations and the head has reached its start |
| CheckpointSlicing.ShouldSendCheckpoint | bridge/processor/checkpoint.go:838-873 | submits exactly the successor of the last child block, or zero at the very beginning |
| CheckpointSlicing.CheckKeepsTiling | bridge/processor/checkpoint.go:838-873 | a sender's check adds only a checkpoint of proper length that continued the chain it saw |
| CheckpointSlicing.TilingIffContinued | bridge/processor/checkpoint.go:860 | an arriving checkpoint keeps the committed ones a tiling exactly if it starts at the next child block |
| CheckpointSlicing.RefusedIffOvertaken | bridge/processor/checkpoint.go:860 | a checkpoint on its way starts at the next child block exactly if none was committed since its sender asked |
| CheckpointSlicing.CommittedCheckpointsTile | bridge/processor/checkpoint.go:838-873 | whatever stale, lagging or competing checkpoints are checked, and in whatever order their transactions arrive later, a contract that refuses any other start holds a tiling from block zero in pieces of proper length |
| CheckpointSlicing.CheckAloneLetsTwoIn | bridge/processor/checkpoint.go:838-873 | without that guard two senders that ask before either transaction arrives commit the same blocks twice |
| BorBatch.BuildBorBatchElems | helper/call.go:662-687 | the three loops build the layout: headers, difficulties, authors without genesis |
| BorBatch.LayoutIndex | helper/call.go:662-687 | where each call stands in the layout, and that nothing else stands there |
| BorBatch.AnsweredAt | helper/call.go:689-703 | the element at the computed index tells whether the call for that block was answered, genesis shift included |
| BorBatch.BorAuthorFromBatch | helper/call.go:689-703 | gives the author exactly if that block's author call was answered with a value |
| BorBatch.FetchedMeans | helper/call.go:710-740 | a block counts as fetched exactly if its two calls, three above genesis, were answered with values and the header has its number |
| BorBatch.CollateBorBatchResults | helper/call.go:705-745 | three lists of equal length that hold exactly the longest run of blocks all of whose calls succeeded, with the right header number |
| ChainIdentity.RunKeepsCounter | helper/bor_failover_http.go:240-252 | the 32-bit failure counter never exceeds the number of consecutive failures, and equals it as long as that fits |
| ChainIdentity.NextKeepsInv | helper/bor_failover_http.go:235-310 | every atomic step of every probe keeps the invariant |
| ChainIdentity.RunInvariant | helper/bor_failover_http.go:235-310 | the invariant holds in every state of every interleaving; no probe compares with a missing id; at most one primary probe is under way |
| ChainIdentity.AnchoredForGood | helper/bor_failover_http.go:279-285 | once anchored by the primary, the expected id is the first id the primary ever reported and never changes |
| ChainIdentity.UnansweredAlways | helper/bor_failover_http.go:235-310 | until the primary has anchored the identity it has never answered, unless the probe that did is still on its way |
| ChainIdentity.FallbackInstallsOnlyWhenPrimaryDown | helper/bor_failover_http.go:287-310 | a fallback sets the id only if there is none, before the primary anchored it; when it read the counter itself, all primary probes so far had failed, two at least |
| ChainIdentity.LateFallbackJudgedByAnchor | helper/bor_failover_http.go:287-310 | a fallback that answers after the anchor passes only with the anchored id and is rejected only with another |
| ChainIdentity.ReclaimIffAnchors | helper/bor_failover_http.go:254-268 | traffic is reclaimed by exactly the step that anchors the identity, although the flag is read twice |
| ChainIdentity.AcceptedIsExpected | helper/bor_failover_http.go:235-310 | whenever a probe is accepted, its id is the expected one at that moment |
| ChainIdentity.LoadedIdDecides | helper/bor_failover_http.go:287-305 | a probe that finds an expected id, at first or after a lost race, passes exactly if its own is equal |
| ChainIdentity.TooEarlyIff | helper/bor_failover_http.go:345-351 | a fallback is turned away uncompared exactly if the primary has failed fewer than two probes in a row |
| ChainIdentity.FallbackInstalls | helper/bor_failover_http.go:292-297 | the swap installs the fallback's id exactly if there is none |
| ChainIdentity.ReplyIsCounted | helper/bor_failover_http.go:235-252 | every answer of the primary is counted, as a failure on top of the earlier ones or by clearing them |
| ChainIdentity.InRoundsKeepsOnePrimary | x/bor/failover/prober.go:59-71 | probing in rounds keeps at most one primary probe under way |
| ChainIdentity.TwoPrimariesReplaceTheAnchor | helper/bor_failover_http.go:279-285 | a concrete interleaving of two primary probes that replaces an anchored id |

## Left out

- Error values: an error is None or false; which error it is, and its text, is not modelled, except for the hash returned with a bad side-tx response.
- Kinds of decoding errors, and inputs of 2^63 bytes or more, which a Go slice cannot hold.
- The nested milestone message: an abstract codec with its own round-trip law (`MilestoneRoundTrips`).
- Forks before Rio, and the legacy span and milestone paths they used.
- int64 overflow of summed voting power: excluded by the validator set's limit on total power, so powers are unbounded naturals.
- Hex strings and map keys: a hash is identified with its bytes, as hex encoding is injective and keeps the order.
- How the majority milestone, the pending one and the agreed head are derived from the votes (`milestone/abci`): PreBlocker receives them as an event.
- SpanApp.HeimdallApp.PreBlocker: models the span schedule, milestone end, clocks, producer lists and tracking; the other fields of a milestone, performance scores and the one-off milestone deletion are not part of it.
- SpanSchedule.RotatedEnd: requires room in 64 bits for one span length behind the last span and two behind the milestone; block numbers near 2^64 are not modelled.
- The keepers of `x/` beyond producer selection, lookup and appending a span.
- Spans created by message post handlers, and what post handlers do.
- VerifyVoteExtension, ValidateNonRpVoteExtensions and the checkpoint data checks behind it.
- SideTxCap.PrepareTxs: the reasons for leaving out a tx other than size, side messages and the cap are one predicate (`unwanted`); wall-clock budgets are a number of txs after which the loop stops.
- RootChainCursor.RootChainListener.QueryAndBroadcastEvents: what handleLog does with an event is not modelled; a successful query is assumed to return the same logs for the same final blocks, and the laws about events assume that consecutive ranges answer one after the other (`Additive`); block numbers are below 2^64.
- ChainIdentity: health tracking, promotion, request cascading and timeouts are not modelled; a probe's answer is arbitrary, and reads and writes of the atomics are sequentially consistent as the Go memory model promises for them.
- CheckpointSlicing.CommittedCheckpointsTile: the root-chain contract is not part of the repository; that it refuses a checkpoint which does not start at its next child block is an assumption (`guarded`), shown to be necessary by TilingIffContinued.
- CheckpointSlicing.SendCheckpointToHeimdall: proposer election, the checkpoint buffer time and the messages themselves are not modelled.
- The gRPC variants of the Bor calls, the subgraph, the task queue, logging and metrics.
