# A verified model of Topia's consensus core

Topia is a blockchain node. This project models, in Dafny, the parts of it on which
consensus between nodes rests, and proves what they promise on every input and every run:

- **The message codec** (`Varint`, `Wire`, `WireLaws`, `WireSize`, `UnknownFields`,
  `Message`, `ConsensusMessages`, `MessageBytes`): the
  generated protobuf marshallers, which compute a size, fill a buffer from the back, and
  decode field by field while keeping the bytes of fields they do not know.
  `Wire` says what a message's bytes are and what decoding does to a message, for any field
  schema; `Message` is the imperative code, proved equal to it; `WireLaws` and `WireSize` hold the laws;
  `UnknownFields` and `MessageBytes` tie them to the wire format itself.
- **Sortition** (`Sortition`, `SortitionSums`): the Q.256 fixed-point Poisson lottery by which a node finds out how
  often it may propose, computed in place on big integers. Its theorems are stated for any
  coefficient tables that satisfy the inequalities of `Fits`, which the source's tables do
  (`SourceFits`).
- **The execution pipeline** (`Scheduler`, `Pipeline`, `Results`, `Backlog`): the builder that hands out one mutable
  composition state per version, the scheduler's window of executed versions, and the two ways of
  committing.
- **The two-generation map** (`ShrinkMap`) that gives memory back after many deletions.
- **RPC frames** (`RpcFrame`) and the **block collector** (`BlockCollector`) that puts
  a block together from the parts its execution domains publish.
- **Voting and proposal choice** (`Voting`, `VotingSources`, `Proposals`): the proposer's vote handling over whole
  runs, the quorum, the priority of a proposal, and the best proposal a validator caches.

`Bits` holds the fixed-width integer operators. Integers are unbounded elsewhere; where the
source's width matters, the wrap-around is written out. Code that updates objects, slices or
arrays is modelled by classes, arrays and loops, each proved against a function of the old state;
the theorems are about those functions and about runs of them. Each handler body is one atomic step.

## What turned out not to hold

Some natural expectations fail. Each has a concrete witness and the exact condition:

- Decoding `a + b` need not give the error that decoding `b` after `a` gives: a declared end may
  cross 2^63 (`ConcatErrorChanges`; exact condition in `ConcatErrors`).
- The RPC stream reader panics on headers whose sizes add up past 32 bits (`ReadCanPanic`; exact
  condition, for every stream, in `ReadPanics`).
- The scheduler's pending count wraps below zero when one version is committed under two heights
  (`PendingCountCanWrap`). Along a run it stays exact if and only if no commit reaches its end while
  it is zero (`PendingCountExact`); with head heights equal to state versions none does
  (`PendingCount`).
- The pending count is not the number of executed states that wait for their commit: a commit from
  the block subscription is not counted (`SubscriptionsAreLost`; exact condition in
  `CountIsBacklog`). What is lost stays lost, and from five on the node never again finds a version
  to prepare (`LostBlocksPreparing`).
- A proposer's own vote and one that arrives in its name both count (`OwnVoteCountsTwice`; exact
  effect on the number of voters in `AttemptVoters`).
- A voter whose record was pushed out is counted again (`ForgottenVoterCountsAgain`); a vote is taken
  for known if and only if its voter is among the last 200 recorded, for its version (`KnownVotes`).
- A vote that arrives before the node first proposed dereferences nil (`EarlyVotePanics`; exact
  condition, after every run, in `PanicsExactly`).
- A proposer's second, better proposal is dropped while its first is cached
  (`RaisedProposalIsDropped`). At every point the cache holds the best proposal if and only if that
  never happens (`CachedIsBest`).
- The height check of the fork choice compares a head's height with itself, so the choice never
  fails, and heads of different heights are compared as well (`HeightsAreNotCompared`;
  `ChoiceNeverFails`).

## Model

| member | source | states |
|---|---|---|
| `Varint.SovIsVarintLength` | consensus/message_cons.pb.go:3883-3885 | the closed bit-length formula is the number of bytes of the shortest base-128 form, for every number |
| `Varint.EncodeVarint` | consensus/message_cons.pb.go:3163-3173 | the backward writer leaves exactly the varint's bytes just before the offset and changes no other byte |
| `Varint.ReadVarInverts` | consensus/message_cons.pb.go:5425-5439 | reading what was written gives the value back and consumes exactly its bytes, whatever follows |
| `Varint.ReadVarLocal` | consensus/message_cons.pb.go:5425-5439 | a successful read depends only on the bytes it consumes |
| `Varint.ReadVarint` | consensus/message_cons.pb.go:5425-5439 | the or-and-shift loop on a word of any width computes the truncated group sum, stops after ten bytes or at the end of data, and reports which |
| `WireLaws.SkipLocal` | consensus/message_cons.pb.go:8578-8655 | skipping a complete field, nested groups included, depends only on the bytes it consumes |
| `WireLaws.SkipCut` | consensus/message_cons.pb.go:8578-8655 | cutting off what follows a complete field does not change how it is skipped |
| `UnknownFields.SkipExactly` | consensus/message_cons.pb.go:8578-8655 | skipping succeeds with `n` inside the data if and only if the first `n` bytes are one field as the wire format defines it: a varint, eight bytes, a length-delimited payload or four bytes after a tag, or a group of fields between its tags, nested to any depth |
| `UnknownFields.SkipsPrinted` | consensus/message_cons.pb.go:8578-8655 | a field printed from such a description is skipped whole, whatever follows |
| `WireLaws.OneFieldLocal` | consensus/message_cons.pb.go:5423-5777 | one turn of the decoding loop depends only on the bytes it consumes |
| `WireLaws.DecodeConcat` | consensus/message_cons.pb.go:5420-5782 | merge law: if `a` is accepted, decoding `a + b` is decoding `a` and then `b` into the result, same message and same stopping place, errors included |
| `WireLaws.ConcatErrors` | consensus/message_cons.pb.go:5420-5782 | the error of the second part survives concatenation if and only if no declared end moves across 2^63; acceptance always survives |
| `WireLaws.ConcatErrorChanges` | consensus/message_cons.pb.go:5420-5782 | concrete bytes on which the error changes from unexpected end to invalid length |
| `WireLaws.DecodeEncoded` | consensus/message_cons.pb.go:2294-2375 | decoding an encoded message into any message merges it: last non-default scalar wins, repeated fields append, unknown bytes append |
| `WireLaws.DecodeTwoEncoded` | consensus/message_cons.pb.go:5420-5782 | two encoded messages back to back decode to their merge |
| `WireLaws.RoundTrip` | consensus/message_cons.pb.go:2294-2375 | a typed message survives marshalling if and only if its unknown tail is a sequence of complete fields the schema does not know |
| `UnknownFields.UnknownRunExactly` | consensus/message_cons.pb.go:5761-5776 | the tails of that condition are exactly the concatenations of fields whose numbers the schema lacks |
| `UnknownFields.AllUnknownDecode` | consensus/message_cons.pb.go:5761-5776 | any number of fields the schema lacks join the unknown bytes whole and leave every value alone |
| `UnknownFields.PayloadIsKept` | consensus/message_cons.pb.go:8612-8634 | a two-byte payload under field 3 of the envelope is kept with its tag and length, not read as fields |
| `WireLaws.DecodeKeepsValid` | consensus/message_cons.pb.go:5761-5776 | whatever is decoded, the unknown tail stays a sequence of complete unknown fields, on errors too |
| `WireLaws.UnknownBytesCount` | consensus/message_cons.pb.go:5761-5776 | decoding never invents unknown bytes and keeps all input as unknown only if it was complete unknown fields |
| `WireSize.ShortestVarint` | consensus/message_cons.pb.go:5425-5439 | no varint that can be read is shorter than the one the writer chooses |
| `WireSize.OneFieldGrows` | consensus/message_cons.pb.go:5423-5777 | one turn of the decoding loop adds to what the message marshals to at most the bytes it consumes, a negative enum counting five less |
| `WireSize.ReencodedSize` | consensus/message_cons.pb.go:5420-5782 | a message decoded from a byte string marshals to at most five bytes more for each field |
| `WireSize.ReencodeStable` | consensus/message_cons.pb.go:5420-5782 | for every byte string that decodes, re-marshalling and decoding again gives the same message; a length of the input somewhat below 2^63 is enough |
| `WireLaws.EncodeInjective` | consensus/message_cons.pb.go:2294-2375 | two valid messages with the same bytes are equal |
| `Message.SkipMessage` | consensus/message_cons.pb.go:8578-8655 | the index-based skip loop terminates, stays in range, and agrees with the suffix specification, with indices past 2^63 read as negative |
| `Message.PutFields` | consensus/message_cons.pb.go:2301-2373 | the fields are written from the last to the first so that they read in schema order; nothing outside changes |
| `Message.FieldsSize` | consensus/message_cons.pb.go:3406-3458 | the computed field sizes add up to the bytes the fields marshal to |
| `Message.Message.Size` | consensus/message_cons.pb.go:3406-3458 | the computed size is the length of the marshalled message |
| `Message.Message.MarshalToSizedBuffer` | consensus/message_cons.pb.go:2294-2375 | the message ends just before the given index and no other byte changes |
| `Message.Message.Marshal` | consensus/message_cons.pb.go:2279-2287 | a buffer of the computed size is filled down to index 0 with exactly the encoding |
| `Message.Message.UnmarshalField` | consensus/message_cons.pb.go:5423-5777 | one turn of the loop, on indices, is one step of the specification: tag checks, wire type, store or skip |
| `Message.Message.Unmarshal` | consensus/message_cons.pb.go:5420-5782 | on every byte string decoding terminates with every index in range, leaves the message the specification names, and returns its error or consumes the whole input |
| `ConsensusMessages.TagLiterals` | consensus/message_cons.pb.go:2109-2119 | the tags stored as literals are the varints of field number and wire type: one byte up to field 15, two from field 16 on |
| `ConsensusMessages.ConsensusRoundTrip` | consensus/message_cons.pb.go:1867-1889 | every consensus message, negative type numbers included, survives the wire |
| `ConsensusMessages.ProposeRoundTrip` | consensus/message_cons.pb.go:2294-2375 | every propose message survives the wire |
| `ConsensusMessages.PreparePropRoundTrip` | consensus/message_cons.pb.go:2100-2220 | every prepare message, empty elements of repeated fields included, survives the wire |
| `MessageBytes.ConsensusBytes` | consensus/message_cons.pb.go:1867-1889 | the envelope's bytes: type after 0x08, payload after 0x12, then the unknown bytes |
| `MessageBytes.ProposeBytes` | consensus/message_cons.pb.go:2294-2375 | the proposal's bytes: eleven fields in order after the source's literal tags |
| `MessageBytes.PreparePropBytes` | consensus/message_cons.pb.go:2100-2220 | the prepare message's bytes: sixteen fields in order, the last after 0x82 0x01 |
| `Sortition.ParseCoefficients` | consensus/vrf/proposer_selector_poiss.go:21-34 | initialisation turns every Q.128 coefficient into Q.256 |
| `Sortition.SourceFits` | consensus/vrf/proposer_selector_poiss.go:36-63 | the source's two tables satisfy the inequalities under which everything below holds |
| `Sortition.NumeratorRange` | consensus/vrf/proposer_selector_poiss.go:35-84 | on [0, 5] the numerator stays in [0, 1] although coefficients alternate and every step rounds down |
| `Sortition.DenominatorBound` | consensus/vrf/proposer_selector_poiss.go:35-84 | the denominator is at least 1 for every non-negative argument |
| `Sortition.ExpNegRange` | consensus/vrf/proposer_selector_poiss.go:66-72 | for every argument in [0, 5] the exponential lies in [0, 1] |
| `Sortition.LotteryInRange` | consensus/vrf/proposer_selector_poiss.go:66-126 | for every weight up to the total: expected wins in [0, 5], numerator in [0, 1], denominator at least 1, probability of no win and first tail probability in [0, 1] |
| `Sortition.SourceLottery` | consensus/vrf/proposer_selector_poiss.go:21-126 | the same for all tables that fit, the source's among them |
| `Sortition.LambdaRange` | consensus/vrf/proposer_selector_poiss.go:86-91 | the expected number of wins lies in [0, 5], and is 0 without weight |
| `Sortition.EvalPoly` | consensus/vrf/proposer_selector_poiss.go:74-84 | the in-place Horner loop computes the floor polynomial and leaves its argument alone |
| `Sortition.ComputeExpNeg` | consensus/vrf/proposer_selector_poiss.go:66-72 | never divides by zero and computes the specified quotient |
| `Sortition.ComputeLambda` | consensus/vrf/proposer_selector_poiss.go:86-91 | computes five times the weight ratio in fixed point |
| `Sortition.PmfAccuracy` | consensus/vrf/proposer_selector_poiss.go:128-138 | every computed probability is below the exact Poisson term by at most 64 units in the last place, for any number of wins |
| `Sortition.StepLoss` | consensus/vrf/proposer_selector_poiss.go:128-138 | one step of the recurrence loses less than 6 units |
| `Sortition.PmfNonNegative` | consensus/vrf/proposer_selector_poiss.go:128-138 | every computed probability is non-negative |
| `Sortition.IcdfFalls` | consensus/vrf/proposer_selector_poiss.go:128-138 | the tail probability never rises |
| `Sortition.Poiss.constructor` | consensus/vrf/proposer_selector_poiss.go:105-126 | the in-place object starts at zero wins of the recurrence, its integers being separate objects |
| `Sortition.Poiss.Next` | consensus/vrf/proposer_selector_poiss.go:128-138 | one in-place step keeps it on the recurrence |
| `Sortition.SelectProposer` | consensus/vrf/proposer_selector_poiss.go:156-173 | the loop over the mutating object returns the specified win count |
| `Sortition.WinCountLeast` | consensus/vrf/proposer_selector_poiss.go:156-173 | the win count is the least one whose tail probability the hash reaches, or the limit |
| `SortitionSums.TailIsRest` | consensus/vrf/proposer_selector_poiss.go:128-138 | every tail is what the sum of the probabilities so far leaves of 1 |
| `SortitionSums.WinCountBySums` | consensus/vrf/proposer_selector_poiss.go:156-173 | the number of wins is the least count whose summed probability, added to the hash, reaches 1, or 26 |
| `SortitionSums.TailAccuracy` | consensus/vrf/proposer_selector_poiss.go:128-138 | every tail is that of the exact Poisson partial sum, up to 64 units for each term |
| `SortitionSums.ExpNegAccuracy` | consensus/vrf/proposer_selector_poiss.go:66-84 | numerator and denominator are below the exact polynomials by at most 19531 and 305175781 units, and the quotient is theirs rounded down |
| `SortitionSums.LambdaExactly` | consensus/vrf/proposer_selector_poiss.go:86-91 | the expected number of wins is five times the share of the weight, rounded down |
| `Sortition.WinCountAntitone` | consensus/vrf/proposer_selector_poiss.go:156-173 | a larger hash never wins more often |
| `Sortition.ZeroWeightNeverWins` | consensus/vrf/proposer_selector_poiss.go:156-173 | without weight there is no win |
| `ShrinkMap.RunRefinesMap` | common/shrink_map.go:25-113 | after any sequence of sets and deletions the two generations hold what one plain map would, share no key, and satisfy the reachability invariant |
| `ShrinkMap.CleanUpNeverFires` | common/shrink_map.go:97-113 | whenever the old generation is written the new one is empty, so the clean-up inside `Set` never finds anything |
| `ShrinkMap.MigrationsKeepContents` | common/shrink_map.go:34-50 | both migrations leave the map alone and the generations disjoint |
| `ShrinkMap.SetIsUpdate` | common/shrink_map.go:97-113 | setting updates one key of the map |
| `ShrinkMap.DelIsRemove` | common/shrink_map.go:25-51 | deleting removes one key, whatever migrations it causes |
| `ShrinkMap.DelKeepsReachable` | common/shrink_map.go:25-51 | deletion keeps the reachability invariant |
| `ShrinkMap.DelShrinks` | common/shrink_map.go:34-50 | after a deletion no generation that has seen 10000 deletions is left below 1000 entries, and below 10000 nothing moves |
| `ShrinkMap.ShrinkableMap.Set` | common/shrink_map.go:97-113 | the in-place method is the update, the generations staying separate objects |
| `ShrinkMap.ShrinkableMap.Del` | common/shrink_map.go:25-51 | the in-place method, copy loops and object swaps included, is the specified deletion |
| `ShrinkMap.ShrinkableMap.Get` | common/shrink_map.go:53-63 | reading agrees with the one map |
| `ShrinkMap.ShrinkableMap.AllKeys` | common/shrink_map.go:65-80 | every key of the one map exactly once |
| `ShrinkMap.ShrinkableMap.IterateCallback` | common/shrink_map.go:84-95 | the callback sees every entry exactly once |
| `ShrinkMap.ShrinkableMap.Size` | common/shrink_map.go:115-120 | the size of the one map |
| `RpcFrame.FrameDecodes` | api/rpc/protocol.go:123-226 | decoding a frame of 32-bit length gives back every field that was encoded, sizes included |
| `RpcFrame.BodyDecodes` | api/rpc/protocol.go:148-181 | a body decodes wherever it lies in the data |
| `RpcFrame.ReadOneFrame` | api/rpc/protocol.go:83-121 | the stream reader takes exactly one frame off the stream |
| `RpcFrame.StreamDecodes` | api/rpc/protocol.go:83-121 | a concatenation of frames decodes to the same messages in order and nothing else |
| `RpcFrame.ReadPanics` | api/rpc/protocol.go:83-181 | on every stream: reading panics if and only if there is a complete header whose sizes add up past 32 bits and the wrapped length can be read |
| `RpcFrame.ReadCanPanic` | api/rpc/protocol.go:83-181 | a 21-byte stream on which it does |
| `RpcFrame.EncodeMessage` | api/rpc/protocol.go:184-226 | the cursor-driven copies fill the buffer with exactly the frame |
| `RpcFrame.FrameLayout` | api/rpc/protocol.go:191-223 | the frame by index: start byte 5, five sizes with the most significant byte first, the type at byte 21, then the five fields in order |
| `RpcFrame.DecodeMessageV2` | api/rpc/protocol.go:148-181 | the 32-bit cursor walk is the specified decoding, panics included |
| `RpcFrame.DecodeMessage` | api/rpc/protocol.go:139-146 | header and body decoding together, on every byte string |
| `RpcFrame.IODecodeMessage` | api/rpc/protocol.go:83-121 | the reading method leaves on the connection what the specification leaves |
| `BlockCollector.RunConserves` | chain/archiver/block_collector.go:49-105 | over every arrival sequence: one height and head per group, emitted heights up by one, each emitted block the in-order join of its group, no chunk accepted twice per data version |
| `BlockCollector.GroupsAreAccepted` | chain/archiver/block_collector.go:49-105 | no accepted arrival is lost, repeated or moved |
| `BlockCollector.ArrivalExactly` | chain/archiver/block_collector.go:49-105 | after any arrivals, by its fields: the first opens a block, one with the open block's head and only new chunks joins it, one of the next height emits it, every other changes nothing |
| `BlockCollector.AcceptedIsEmitted` | chain/archiver/block_collector.go:73-99 | an arrival that joins is in the block emitted for its height, data and results, whatever arrives later |
| `BlockCollector.EmittedHeights` | chain/archiver/block_collector.go:49-105 | consecutive emitted blocks have consecutive heights |
| `BlockCollector.EmittedAligned` | chain/archiver/block_collector.go:81-96 | data and result chunks of an emitted block stay index-aligned if every arrival was |
| `BlockCollector.Collector.IsExistSameBlockData` | chain/archiver/block_collector.go:31-47 | finds a part of the same data version that shares a chunk, if and only if there is one |
| `BlockCollector.Collector.Collect` | chain/archiver/block_collector.go:49-105 | the method's answer and new list are the specified ones; rejected arrivals change nothing |
| `Scheduler.ExecuteKeepsWindow` | execution/scheduler.go:148-203 | the window stays consecutive, ends at the last version, stays below the limit and never empties; a failure changes nothing |
| `Scheduler.RepeatsAreStored` | execution/scheduler.go:148-171 | asking again for a version in the window returns the result stored for it |
| `Scheduler.ExecuteAnswers` | execution/scheduler.go:148-203 | an execution answers what it was given and appends it to untouched older entries, a fifth of the limit going at the limit; a repeat answers the entry's result |
| `Scheduler.MaxStateVersionIsMax` | execution/scheduler.go:210-227 | the larger of height and last version, and none exactly while five are pending |
| `Results.RepeatsAnswerFirst` | execution/scheduler.go:148-184 | after every run, a version in the window is answered with the result its first execution was given |
| `Results.OutcomesComeFromSteps` | execution/scheduler.go:173-184 | that result is the one given to the step that executed the version |
| `Results.WindowRetains` | execution/scheduler.go:186-203 | after every run the window has all executed versions, or at least the last four fifths of the limit |
| `Scheduler.NextVersionAccepted` | execution/scheduler.go:210-227 | the version after the maximum is accepted if and only if there is no window or the ledger is not ahead |
| `Scheduler.Scheduler.FindInWindow` | execution/scheduler.go:148-171 | the scan always finds a version that lies in the window |
| `Scheduler.Scheduler.ExecutePackedTx` | execution/scheduler.go:129-208 | the method is the specified transition, and only a successful execution moves the state's phase |
| `Scheduler.Scheduler.CompositionStateOfExePackedTxs` | execution/scheduler.go:319-334 | finds the state of a version if and only if it lies in the window |
| `Scheduler.BlockInfoSub.Process` | chain/blockinfo_sub.go:163-208 | tests the delay before it looks the state up, commits that state alone, and leaves list and count as they were |
| `Scheduler.Scheduler.CommitPackedTx` | execution/scheduler.go:486-606 | finds the version, refuses delayed heights, commits its state alone, and counts down only when it gets to the end |
| `Pipeline.StateBuilder.CreateCompositionState` | state/composition_builder.go:108-128 | a new state for a new version; otherwise the last state, if it is of that version and not committed |
| `Results.AskingAgain` | state/composition_builder.go:108-128 | after every run: a new version gets a new state, the version made last gets the same state until it is committed, every other gets none |
| `Pipeline.CreateFollowsBuilder` | state/composition_builder.go:108-128 | the node's create step is what the builder's method does |
| `Pipeline.ExecuteFollowsScheduler` | execution/scheduler.go:129-208 | the node's execute step is what the scheduler's method does to list, count and phase |
| `Pipeline.CommitFollowsScheduler` | execution/scheduler.go:486-606 | the node's commit step is what the scheduler's method does to count and phases |
| `Pipeline.SubscriptionFollowsProcessor` | chain/blockinfo_sub.go:163-208 | the node's subscription step is what the processor's method does |
| `Pipeline.RunKeeps` | execution/scheduler.go:148-184 | the pipeline invariant (builder, window, phases, count) holds after every run of create, execute, commit and subscriber-commit steps, from an old ledger or from genesis |
| `Pipeline.ExecuteOnce` | consensus/executor.go:206-258 | over every run: one state per version, all answers for a version are that state, no version is executed twice |
| `Pipeline.PhasesOnlyAdvance` | state/composition.go:152-158 | every step of every run moves phases only from idle to executed to committed |
| `Pipeline.SubscriptionKeeps` | chain/blockinfo_sub.go:151-208 | committing from the block subscription keeps the invariant and the phase order |
| `Pipeline.PendingCountExact` | execution/scheduler.go:486-606 | along every run the pending count is executions minus completed commits if and only if no commit reaches its end while the count is zero |
| `Pipeline.PendingCount` | consensus/proposer.go:719-753 | if head heights equal state versions, that never happens: the count is exact at every point and commits never outnumber executions |
| `Pipeline.PendingCountCanWrap` | execution/scheduler.go:597-597 | one version committed under two heights wraps the count |
| `Pipeline.ChosenVersionAccepted` | consensus/executor.go:413-424 | in every reachable state the version the preparer chooses is new, and accepted if and only if nothing was executed yet or the ledger is not ahead |
| `Backlog.CountIsBacklog` | execution/scheduler.go:180-184 | along every run the pending count is the number of states executed and not committed, if and only if no step commits a waiting state without counting or counts one committed before |
| `Backlog.SubscriptionsAreLost` | chain/blockinfo_sub.go:163-208 | after any number of executions committed from the subscription no state waits, all count as pending, and from five on no version is offered for preparing |
| `Backlog.LostNeverFalls` | execution/scheduler.go:486-606 | with head heights equal to state versions, no step recovers a lost execution |
| `Backlog.LostBlocksPreparing` | execution/scheduler.go:210-227 | once five executions are lost, no later state of any such run offers a version for preparing |
| `Voting.VoteKeyInjective` | consensus/proposer.go:327-331 | two votes share a record key only if they agree on version and voter, separators in names included |
| `Voting.KnownVotes` | consensus/proposer.go:327-335 | on every run a vote is taken for known if and only if its voter is among the last 200 recorded, for its version |
| `Voting.RememberKeepsSpacing` | consensus/proposer.go:82-83 | a bounded record admits a key again only after more additions than its capacity |
| `Voting.VoteCollector.TryAggregateSignAndAddVote` | consensus/vote_collector.go:33-61 | a vote for another head is dropped; at the threshold the recovery gets the common head and every signature in order |
| `Voting.VoteCollector.Reset` | consensus/vote_collector.go:71-76 | empties the votes and keeps height and threshold |
| `Voting.ConsensusProposer.SetIfNotVoted` | consensus/proposer.go:327-335 | answers whether the key was known and records it if not |
| `Voting.ConsensusProposer.AggSignDispose` | consensus/proposer.go:282-325 | the commit record grows exactly when a signature was recovered for a version not yet committed; the three outcomes |
| `Voting.ConsensusProposer.ReceiveVote` | consensus/proposer.go:337-385 | the guards in order, a voter being recorded even when the vote is then refused; the collector is emptied exactly after a finished commit |
| `Voting.ConsensusProposer.ProposeBlock` | consensus/proposer.go:537-560 | a new collector with the node's own vote, which no record guards |
| `Voting.ConsensusProposer.ReceiveCommit` | consensus/validator.go:483-491 | a version is recorded once |
| `Voting.TraceFollowsHandlers` | consensus/proposer.go:337-385 | the history used by the run theorems moves exactly as the handlers do, up to the nil dereference |
| `Voting.PanicsExactly` | consensus/proposer.go:346-360 | after every run a vote leads to the nil dereference if and only if it passes the first guards and the node has never proposed |
| `Voting.EarlyVotePanics` | consensus/proposer.go:346-360 | any vote does on a selected node that has just started |
| `Voting.RunKeeps` | consensus/proposer.go:282-385 | after every run the records hold the newest additions and every tally and attempt is sound |
| `Voting.AttemptsAreSound` | consensus/vote_collector.go:33-61 | every attempt is over at least the threshold of votes for one head, at most the first being the node's own, all others for the next height |
| `VotingSources.AttemptsAreVerified` | consensus/proposer.go:342-366 | every vote of every attempt arrived, verified, at a selected node, or is the node's own |
| `VotingSources.RecoveryIsAsked` | consensus/vote_collector.go:48-65 | the recovery is asked exactly at the threshold, about the common head and with every signature in order |
| `VotingSources.NotedIsAsked` | consensus/vote_collector.go:48-65 | the attempts of the history are what the recovery is asked about |
| `VotingSources.ReceiveExactly` | consensus/proposer.go:342-378 | what a vote changes, guard by guard, down to the emptied collector after a finished commit |
| `Voting.RepeatsAreSpaced` | consensus/proposer.go:327-335 | two network votes of one voter are counted together only if more voters were recorded between them than the record holds |
| `Voting.AttemptVoters` | consensus/vote_collector.go:48-56 | an attempt whose votes have at most 200 records between them has at least the threshold of distinct voters if and only if it is not at the threshold with the own vote counted twice; it is never more than one short |
| `Voting.ForgottenVoterCountsAgain` | consensus/proposer.go:327-335 | a run with 200 refused votes in between after which one voter counts twice |
| `Voting.OwnVoteCountsTwice` | consensus/proposer.go:537-560 | a run that reaches a threshold of two with one voter |
| `Voting.CommitsAreSpaced` | consensus/validator.go:483-491 | a version is committed again only after more commits than the record holds |
| `Voting.QuorumsMeet` | consensus/dkg_exchange.go:151-157 | two voter sets of threshold size share more than a third of the members |
| `Voting.ThresholdIsLeast` | consensus/dkg_exchange.go:151-157 | the threshold is reachable, and below it two voter sets may share no more than a third |
| `Voting.AttemptsMeet` | consensus/vote_collector.go:33-61 | two attempts of any two proposers' runs share more than a third of the members as voters, if each has the threshold of the membership, its voters are members, its votes have at most 200 records between them, and it is not at the threshold by counting the own vote twice |
| `Proposals.CompareIsIntegerOrder` | consensus/vrf/proposer_selector_poiss.go:180-180 | on strings of one length the lexicographic order is the order of the big-endian integers |
| `Proposals.MaxPriority` | consensus/vrf/proposer_selector_poiss.go:175-185 | the loop returns the greatest digest over the wins, or nothing without a win |
| `Proposals.DrawsDiffer` | consensus/vrf/proposer_selector_poiss.go:179-179 | what is hashed for a win is the proof and the win's number in eight bytes |
| `Proposals.BigEndianInverts` | common/util.go:54-58 | the counter's eight bytes determine the counter |
| `Proposals.PriorityGrows` | consensus/vrf/proposer_selector_poiss.go:175-185 | the priority is determined by the wins and never falls as they grow, in either order |
| `Proposals.Validator.ValidateAndCollect` | consensus/validator.go:311-352 | acceptance, the new cache and the start of collection, branch by branch |
| `Proposals.Validator.JudgeLocalMaxPriBest` | consensus/validator.go:63-87 | the node is best unless something at least as good is cached for the next height |
| `Proposals.JudgeForeseesCollect` | consensus/validator.go:63-87 | a node judges itself best if and only if its proposal would replace the cached one |
| `Proposals.JudgeExactly` | consensus/validator.go:63-87 | only a cached proposal of this chain for the next height, or one that does not decode, keeps the node from proposing |
| `Proposals.CollectExactly` | consensus/validator.go:320-351 | what every arrival does to the cache, by its fields; one that differs in chain, round or state version always replaces |
| `Proposals.CachedIsBest` | consensus/validator.go:320-351 | over every sequence of proposals for one key: at every point the cache holds the valid one of greatest priority, earliest among equals, if and only if no arrival is the cached proposer raising its own |
| `Proposals.OneProposalEach` | consensus/validator.go:320-351 | in particular when nobody proposes twice |
| `Proposals.CollectKeepsBetter` | consensus/validator.go:325-343 | one arrival leaves the better proposal cached if and only if it is not the cached proposer raising its own |
| `Proposals.RaisedProposalIsDropped` | consensus/validator.go:325-328 | two proposals of one proposer of which the weaker stays |
| `Proposals.ChosenIsBest` | chain/fork_choice.go:36-74 | folding the fork choice over heads yields the greatest priority, earliest among equals |
| `Proposals.CacheAgreesWithForkChoice` | chain/fork_choice.go:57-73 | at every point the cache and the fork choice pick the same block, if and only if no arrival is the cached proposer raising its own |
| `Proposals.ChoiceNeverFails` | chain/fork_choice.go:36-74 | the choice never fails, returns one of its heads of no less priority than either, and so is confined to heads of one height exactly when it is given such heads |
| `Proposals.HeightsAreNotCompared` | chain/fork_choice.go:36-39 | a head of height 2 is chosen over one of height 1 |

## Left out

- Other generated message types: they follow the scheme proved here for any schema.
- Cryptography, JSON and the VRF: digests, signature checks, recovery and JSON decoding are parameters.
- Goroutine interleaving, locks, timers and the scheduler's state flag: every handler body is one atomic step.
- Aliasing of decoded byte slices, and nil versus empty: fields are values.
- `json.Marshal` failing in the RPC encoder, and slices with spare capacity in its decoder.
- The block collector's blocks are values; the source appends to the first block it holds, through a pointer.
- Evictions: the source computes a fifth of the limit in 32-bit floating point; the model divides integers, which agrees up to 2^24.
- State versions and ledger heights in the pipeline do not wrap at 2^64.
- Lookup order inside the caches: reads do not refresh entries, as in the source's use of them, so the records are first-in first-out lists.
- `MaxPriority`: a win count of 2^63 - 1, at which the source's loop never ends, is excluded by its precondition; sortition returns at most 26.
- `PendingCountExact`: for runs of fewer than 2^32 executions, beyond which the source's 32-bit counter wraps upwards.
- `TagLiterals`: for field numbers up to 255; the messages modelled use up to 16.
- `SelectProposer`: the hash is given as a number.
- `ExpNegAccuracy`: how far the quotient of the exact polynomials is from the exponential function is not stated.
- Committing a block to the ledger after a commit message, and building blocks and results: only their success or failure is modelled.
- Agreement between nodes: a validator's vote record includes the proposer, so the code does not limit a node to one vote per height; what is proved is that voter sets overlap.
- `CompositionStateAtVersion`, `ChainChoiceAfterAncestor` and the waiting loops of the proposer: they do not always advance.
- The simple composition-state builder, the RPC queue and subscriptions, the transaction pool, accounts and configuration.
