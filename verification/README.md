# Rotating-coordinator consensus among mobile support stations — a Dafny model

This project models the per-node protocol logic of a Chandra–Toueg-style
consensus for a mobile environment, as the Sinalgo simulation implements it in
two node classes:

- **MSSNode** (mobile support station, the acceptor and, in turn, the
  coordinator). It collects the values of the mobile hosts in range. It counts,
  per station, how many values have been collected. Once the counts add up to
  the number of mobile hosts, it proposes one value to the coordinator of its
  epoch (`round % totalMSSNodes + 1`). The coordinator turns a quorum of
  proposals (`(N + 1) / 2`) into one trial value, and every station answers with
  ACK or NACK. An ACK quorum decides the value (`ProposedValueDefined`). A NACK
  quorum resets the epoch and moves every station to the next one (`NextRound`).
- **MHNode** (mobile host, the proposer). It sends its own id as its value to
  the station it is connected to, once per epoch it hears about through
  `NotifyRound`. It ticks a local clock every round.

Each node's state is an immutable record. Each handler is a pure function from
(state, message) to a `Transition`, which holds the next state and the
outgoing messages in order. The messages are a closed datatype of the nine
kinds. The simulator's lock-step round is `MssNode.Round`: the inbox first,
then `preStep`, then `postStep`. `MssRun` and `MhNode.Run` allow any
interleaving of deliveries and phases, and the per-epoch promises are proved
over those runs.

The environment becomes parameters:

- population counts: `Directory`, read at every `preStep`;
- the connected station: an `Option<int>`;
- the random ACK/NACK draw: a boolean `reject` per delivered message;
- the two comparators the buffers are sorted with: "sorts strictly before"
  relations (`Comparators`).

Module layout:

- `Messages`: the message catalogue, `Outgoing`, `Transition`, and counting messages in an outbox.
- `Coordination`: the quorum threshold and the coordinator rotation.
- `Selection`: the element a stable sort puts first.
- `BufferSizes`: the total of the per-station count map.
- `MssNode`: the station's state, handlers, `preStep`, `postStep` and round.
- `MssRun`: station runs and the per-epoch lemmas.
- `MhNode`: the host's state, handlers, phases, runs and lemmas.

Behaviours of the source that a reader might not expect, which the model
keeps:

- The coordinator id is recomputed only when a new epoch starts
  (`updateCoordinator`). It is not recomputed every round, although `preStep`
  refreshes the population counts every round.
- `postStep` issues a trial value from any station whose proposal buffer
  reaches the quorum. It does not check that this station is the coordinator.
- `ProposedValueDefined` overwrites the held value even on a station that has
  already decided.
- A new epoch resets the held value to 0. `decided` stays true.
- The proposal sent to the coordinator carries the chosen value in its
  timestamp field too (MSSNode.java:337).
- The coordinator includes its own proposal by handling it directly, in
  addition to sending it.
- The ACK and NACK buffers are lists of payload-free messages whose size is
  the only thing read. The model keeps them as counts.

Three consequences of the source's behaviour are proved as lemmas:

- `MssRun.DecidedValueResetByNewEpoch`: a decided station that enters a new
  epoch holds the value 0 and re-announces 0 as the decision every round.
- `MssRun.AckThenNackQuorums`: with 4 stations, two ACKs followed by two NACKs
  in one epoch first decide and then start a new epoch. A trial is broadcast
  to the other stations only, so it draws at most N - 1 votes, and those never
  reach both quorums (`Coordination.OneTrialReachesAtMostOneQuorum`). The
  coordinator's vote counts are cleared only at a quorum or a new epoch,
  though, so votes from more than one trial of the epoch add up.
- `Coordination.BothQuorumsFitIffEven`: N votes can hold both quorums exactly
  when N is even.

So `decided` is monotone (`MssRun.DecidedIsMonotone`), but the decided value
is not stable.

The buffers are kept in arrival order. The source sorts them in place with a
stable sort and reads element 0. Among the entries no other entry sorts
strictly before, that is the earliest in arrival order, whatever earlier
sorts did to the list. `Selection.First` returns exactly that entry, so
keeping arrival order changes nothing that can be observed.

## Model

| member | source | states |
|---|---|---|
| Coordination.Quorum | nodes/nodeImplementations/MSSNode.java:143 | the vote threshold is half of the station count rounded up, and lies in 1..N whenever N >= 1 |
| Coordination.CoordinatorOf | nodes/nodeImplementations/MSSNode.java:364-366 | the coordinator of any epoch is a station id in 1..N |
| Coordination.CoordinatorSucceeds | nodes/nodeImplementations/MSSNode.java:359-366 | one epoch later the coordinator is the next id, wrapping from N back to 1 |
| Coordination.CoordinatorPeriodic | nodes/nodeImplementations/MSSNode.java:364-366 | the rotation repeats every N epochs |
| Coordination.EveryNodeCoordinates | nodes/nodeImplementations/MSSNode.java:364-366 | every station id 1..N coordinates one epoch of any N consecutive epochs |
| Coordination.BothQuorumsFitIffEven | nodes/nodeImplementations/MSSNode.java:140-165 | N votes can hold an ACK quorum and a disjoint NACK quorum exactly when N is even |
| Coordination.OneTrialReachesAtMostOneQuorum | nodes/nodeImplementations/MSSNode.java:140-165 | the at most N - 1 votes one trial draws from the other stations never reach both the ACK and the NACK quorum |
| Coordination.Examples | nodes/nodeImplementations/MSSNode.java:143-165 | thresholds 1, 2, 3 for 1, 4, 5 stations; coordinators 1,2,3,4,1 for epochs 0..4 among 4 stations |
| Selection.First | nodes/nodeImplementations/MSSNode.java:332-345 | the value read after sorting a non-empty buffer is one of the buffer's entries |
| Selection.FirstIsMinimal | nodes/nodeImplementations/MSSNode.java:332-345 | for a comparator that is a strict order, no buffered entry sorts strictly before the chosen one |
| BufferSizes.Total | nodes/nodeImplementations/MSSNode.java:396-400 | the sum of non-negative counts is non-negative, and zero exactly when every count is zero |
| BufferSizes.TotalRemove | nodes/nodeImplementations/MSSNode.java:396-400 | the sum of the reported counts does not depend on the order of visiting the stations |
| BufferSizes.TotalPut | nodes/nodeImplementations/MSSNode.java:186-190 | storing a station's count changes the total by the new count minus the one it replaces |
| MssNode.Init | nodes/nodeImplementations/MSSNode.java:62-82 | a new station is in epoch 0, undecided, all buffers empty, and its coordinator id agrees with the rotation for every N >= 1 |
| MssNode.HandleProposeValue | nodes/nodeImplementations/MSSNode.java:122-126 | a proposal is appended to the proposal buffer; nothing else changes |
| MssNode.HandleTryValue | nodes/nodeImplementations/MSSNode.java:128-138 | exactly one vote goes to the coordinator: NACK iff the draw rejects, ACK otherwise; the state is unchanged |
| MssNode.HandleAck | nodes/nodeImplementations/MSSNode.java:140-153 | at quorum both vote counts are zero, the station is decided on its held value, proposals are dropped, and the decision is broadcast; below quorum only the ACK count grows by one |
| MssNode.HandleNack | nodes/nodeImplementations/MSSNode.java:155-165 | at quorum the epoch advances by one with every per-epoch buffer and flag reset, the coordinator rotated, the held value 0, `decided`, id, clock and population counts unchanged, and NextRound broadcast; below quorum only the NACK count grows by one |
| MssNode.HandleProposedValueDefined | nodes/nodeImplementations/MSSNode.java:167-176 | the station is decided on the announced value, with an empty proposal buffer and no pending proposal; nothing else changes |
| MssNode.InitialState | nodes/nodeImplementations/MSSNode.java:347-357 | every per-epoch buffer and flag is cleared and the held value becomes 0; epoch, decision and clock are untouched |
| MssNode.HandleNextRound | nodes/nodeImplementations/MSSNode.java:178-182 | the new epoch is fresh, numbered one higher, with the coordinator the rotation assigns it; `decided` is unchanged |
| MssNode.HandleMHValue | nodes/nodeImplementations/MSSNode.java:184-187 | the MH value is appended and the station's own count becomes the buffer's new size; nothing else changes |
| MssNode.HandleBufferSize | nodes/nodeImplementations/MSSNode.java:189-191 | exactly the reporting station's count is replaced; nothing else changes |
| MssNode.Handle | nodes/nodeImplementations/MSSNode.java:96-120 | no message lowers `decided`, moves the epoch by more than one, sends a proposal or a trial, or (within an epoch) undoes a proposal or a trial already made |
| MssNode.HandleInbox | nodes/nodeImplementations/MSSNode.java:96-120 | a whole inbox keeps `decided`, never lowers the epoch, and sends no proposal and no trial |
| MssNode.ProposeToCoordinator | nodes/nodeImplementations/MSSNode.java:200-212 | one ProposeValue goes to the coordinator; its value is a collected MH value and its timestamp equals that value; the coordinator also buffers it itself |
| MssNode.PreStep | nodes/nodeImplementations/MSSNode.java:214-229 | a proposal is sent exactly when not yet proposed, all MH values sent, undecided and values collected; otherwise only the counts refresh, and a decided station re-announces its value |
| MssNode.IssueTrial | nodes/nodeImplementations/MSSNode.java:276-286 | the trial value is one of the buffered proposals, it is broadcast, the buffer is emptied and the trial flag raised |
| MssNode.CheckAllMhSent | nodes/nodeImplementations/MSSNode.java:396-405 | the all-sent flag is raised exactly when the reported counts add up to the MH population, and never lowered |
| MssNode.PostStep | nodes/nodeImplementations/MSSNode.java:273-298 | at most one trial, exactly when due; the station's count is reported iff not all MH values are known; the last message tells the MHs the epoch; the clock advances by exactly one |
| MssNode.Report | nodes/nodeImplementations/MSSNode.java:288-302 | the station's count is broadcast iff not all MH values are known, the all-sent flag is updated as by checkAllMHSent, NotifyRound comes last, the clock advances by one, and nothing else changes |
| MssNode.Round | nodes/nodeImplementations/MSSNode.java:214-298 | one round advances the clock by one, keeps `decided` and never lowers the epoch |
| MssRun.Apply | nodes/nodeImplementations/MSSNode.java:96-298 | any single event keeps `decided`, keeps the epoch or starts the next one, fresh, with the rotated coordinator, and sends at most one proposal and one trial, none once made in the epoch |
| MssRun.EnteringRuns | nodes/nodeImplementations/MSSNode.java:62-82 | a new station's first preStep sends nothing and leaves it counted, undecided, in epoch 0, addressing the rotation's coordinator of epoch 0 |
| MssRun.RoundIsRun | nodes/nodeImplementations/MSSNode.java:214-298 | the simulator's round is the run that delivers the inbox in order, then takes a preStep, then a postStep |
| MssRun.DecidedIsMonotone | nodes/nodeImplementations/MSSNode.java:167-176 | over any run a decided station stays decided |
| MssRun.RoundIsMonotone | nodes/nodeImplementations/MSSNode.java:359-362 | over any run the epoch never decreases |
| MssRun.AtMostOneProposalPerEpoch | nodes/nodeImplementations/MSSNode.java:200-224 | a run that stays in one epoch sends at most one proposal, and none if the station had proposed or decided |
| MssRun.AtMostOneTrialPerEpoch | nodes/nodeImplementations/MSSNode.java:276-286 | a run that stays in one epoch issues at most one trial value, and none if one was already issued |
| MssRun.CoordinatorFollowsRotation | nodes/nodeImplementations/MSSNode.java:364-366 | with a constant population of N stations the addressed coordinator is always the rotation's coordinator of the current epoch |
| MssRun.DeliveryKeepsCandidates | nodes/nodeImplementations/MSSNode.java:96-120 | a delivered message adds to the station's buffers only the value it carries, if it is a proposal or an MH value |
| MssRun.ApplyKeepsCandidates | nodes/nodeImplementations/MSSNode.java:200-212 | no event adds a buffered value it does not bring, and any trial value it broadcasts was already buffered |
| MssRun.TrialValuesWereProposed | nodes/nodeImplementations/MSSNode.java:276-286 | every trial value a station broadcasts was buffered at the start of the run or delivered to it during the run, as a proposal or an MH value |
| MssRun.OwnCountPreserved | nodes/nodeImplementations/MSSNode.java:184-191 | the station's own count equals its buffer size, and is present once it holds values, across every event except a count report naming itself |
| MssRun.OwnCountPreservedByDelivery | nodes/nodeImplementations/MSSNode.java:96-120 | the same invariant across the delivery of any message other than a count report naming the station |
| MssRun.CollectingRaisesTotal | nodes/nodeImplementations/MSSNode.java:184-187 | collecting one MH value raises the system-wide tally by exactly one |
| MssRun.ReportReplacesCount | nodes/nodeImplementations/MSSNode.java:189-191 | a count report replaces the reporter's earlier count in the tally |
| MssRun.NewEpochStartsUncollected | nodes/nodeImplementations/MSSNode.java:347-357 | after a new epoch the next postStep marks all MH values sent exactly when there are no MH nodes |
| MssRun.DecisionIdempotent | nodes/nodeImplementations/MSSNode.java:167-176 | delivering the same decision twice gives the state of delivering it once |
| MssRun.NewEpochOnFreshNode | nodes/nodeImplementations/MSSNode.java:178-182 | NextRound on an already fresh station keeps its buffers empty and advances the epoch exactly once per delivery |
| MssRun.DecidedValueResetByNewEpoch | nodes/nodeImplementations/MSSNode.java:347-357 | a decided station that enters a new epoch stays decided, holds 0, and re-announces 0 as the decision |
| MssRun.AckThenNackQuorums | nodes/nodeImplementations/MSSNode.java:140-165 | with 4 stations, ACK, ACK, NACK, NACK in one epoch (votes of more than one trial) decide and then start a new epoch, leaving the station decided on 0 |
| MhNode.Init | nodes/nodeImplementations/MHNode.java:55-59 | a new host offers its own id, has not proposed, and starts at epoch 0 and clock 0 |
| MhNode.HandleNotifyRound | nodes/nodeImplementations/MHNode.java:73-78 | a notification naming another epoch adopts it and clears the proposal; one naming the current epoch changes nothing |
| MhNode.Handle | nodes/nodeImplementations/MHNode.java:62-71 | every message other than NotifyRound leaves the host unchanged |
| MhNode.HandleInbox | nodes/nodeImplementations/MHNode.java:62-78 | after an inbox the host is in the epoch of the last notification, and still has its proposal iff every notification named its epoch |
| MhNode.LastRoundOfSingleEpoch | nodes/nodeImplementations/MHNode.java:73-78 | notifications that all name the current epoch leave the host in it |
| MhNode.PreStep | nodes/nodeImplementations/MHNode.java:80-92 | with no station in range, or already proposed, nothing happens; otherwise exactly one MHValue(value, clock) goes to that station and the host marks itself proposed |
| MhNode.PostStep | nodes/nodeImplementations/MHNode.java:119-122 | the clock advances by exactly one and nothing else changes |
| MhNode.Apply | nodes/nodeImplementations/MHNode.java:62-122 | an event never changes the host's id or value, and sends a value only as a first proposal to a station in range |
| MhNode.ValueNeverChanges | nodes/nodeImplementations/MHNode.java:59-92 | over any run the host's id and offered value never change |
| MhNode.ClockCountsPostSteps | nodes/nodeImplementations/MHNode.java:119-122 | over any run the clock advances by exactly the number of postSteps |
| MhNode.AtMostOneSubmissionPerEpoch | nodes/nodeImplementations/MHNode.java:73-92 | while every notification names the current epoch the host submits at most one value, and none if it already had |
| MhNode.UnreachableNeverProposes | nodes/nodeImplementations/MHNode.java:80-86 | a host never in range of a station sends nothing and never marks itself proposed |
| MhNode.SecondPreStepSilent | nodes/nodeImplementations/MHNode.java:80-92 | after proposing, another preStep in the same epoch sends nothing |
| MhNode.NotifyRoundIdempotent | nodes/nodeImplementations/MHNode.java:73-78 | delivering the same notification twice has the effect of delivering it once |

## Left out

- The simulator runtime (Sinalgo) is not part of this model: `send`/`broadcast` delivery, `Inbox`, node iteration in `findCoordinator`, `discoverTotalMSSNodes`, `discoverTotalMHNodes`, and edge iteration in `getMSSConnected`. The counts are a `Directory` parameter of `preStep`, the connected station is an `Option<int>`, and sends go to an outbox addressed by node id. A coordinator id with no matching station (where `findCoordinator` returns null) is not distinguished.
- `java.util.Random` and `nackProbability` (a double): each vote is a boolean `reject` input. So `reject` may be true even with probability 0.0, as `nextDouble() <= 0.0` can hold.
- `MHValueComparator` and `ProposeValueComparator` are not part of this model. They are a "sorts strictly before" parameter, and the chosen entry is the first entry of a stable sort.
- models/connectivityModels/MSSConnection.java: the radio-range predicate over floating-point squared distances and its one-time static configuration. Reachability is the connected-station input.
- script/log_reader.rb: log-file walking and scraping, pure I/O.
- `draw`, logging, `System.out` output, `Configuration` lookups, `init`, `neighborhoodChange`, `start`, `toString`, `checkRequirements`: presentation and configuration only.
- Division by zero: with no station counted, `round % totalMSSNodes` throws. This can happen in NextRound or in a NACK quorum, whose threshold is then 0. `postStep` would also read element 0 of an empty proposal buffer. These handlers require a non-zero count, or `TrialDue ==> buffer non-empty`, instead of modelling the exception. `preStep` always counts the station itself before any message can arrive.
- Java `int` overflow of `round`, `ts` and the count total after 2^31 steps: integers are unbounded.
- Agreement across stations is not stated. It needs a network model, which is left out with the runtime. `MssRun.DecidedValueResetByNewEpoch` and `MssRun.AckThenNackQuorums` show locally how it can fail for the source as written.
- Selection.FirstIsMinimal: states only that no entry sorts strictly before the chosen one. It does not say that the choice is the earliest such entry, which needs the comparator to be a strict weak order.
