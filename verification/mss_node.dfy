/** Acceptor side: the mobile support station (MSS). A node's state is an
    immutable record; every handler is a pure function from the state (and the
    message) to the next state and the messages the node sends. The simulator's
    node directory, its random source and its comparators become parameters. */
module MssNode {
  import opened Messages
  import opened Coordination
  import opened Selection
  import opened BufferSizes

  /** Population counts the simulator reports at the start of every preStep. */
  datatype Directory = Directory(totalMss: nat, totalMh: nat)

  /** The two comparators MSSNode sorts its buffers with, as "sorts strictly
      before" relations: one for collected MH values, one for proposals. */
  datatype Comparators = Comparators(
    mhValue: (Stamped, Stamped) -> bool,
    proposeValue: (Stamped, Stamped) -> bool)

  /** The fields of one MSS node. The ACK and NACK buffers hold messages without
      payload whose only observed property is their number, so they are counts. */
  datatype MssState = MssState(
    id: int,
    round: nat,
    totalMss: nat,
    totalMh: nat,
    decided: bool,
    propose: bool,
    allMhSent: bool,
    coordinatorAlreadyProposedValue: bool,
    coordinatorId: int,
    coordinatorBuffer: seq<Stamped>,
    ackCount: nat,
    nackCount: nat,
    mssBuffer: seq<Stamped>,
    mssBuffersMap: map<int, int>,
    proposedValue: int,
    ts: nat)

  /** Every per-epoch buffer is empty and every per-epoch flag is down. */
  predicate FreshEpoch(s: MssState) {
    && s.coordinatorBuffer == []
    && s.ackCount == 0
    && s.nackCount == 0
    && s.mssBuffer == []
    && s.mssBuffersMap == map[]
    && !s.propose
    && !s.allMhSent
    && !s.coordinatorAlreadyProposedValue
  }

  /** A freshly constructed and initialised node; the population counts stay
      zero until the first preStep. */
  function Init(id: int): (s: MssState)
    ensures s.id == id && s.round == 0 && s.ts == 0 && !s.decided
    ensures FreshEpoch(s)
    ensures forall n: nat | n >= 1 :: s.coordinatorId == CoordinatorOf(s.round, n)
  {
    MssState(id, 0, 0, 0, false, false, false, false, 1, [], 0, 0, [], map[], 0, 0)
  }

  // ---------------------------------------------------------------- handlers

  function HandleProposeValue(s: MssState, value: int, timestamp: int): (s': MssState)
    ensures s'.coordinatorBuffer == s.coordinatorBuffer + [Stamped(value, timestamp)]
    ensures s'.(coordinatorBuffer := s.coordinatorBuffer) == s
  {
    s.(coordinatorBuffer := s.coordinatorBuffer + [Stamped(value, timestamp)])
  }

  /** The vote on a trial value; `reject` stands for the random draw falling at
      or below the configured NACK probability. The state does not change. */
  function HandleTryValue(s: MssState, reject: bool): (out: seq<Outgoing>)
    ensures |out| == 1 && out[0].Send? && out[0].to == s.coordinatorId
    ensures out[0].msg.Nack? <==> reject
    ensures out[0].msg.Ack? <==> !reject
  {
    [Send(s.coordinatorId, if reject then Nack else Ack)]
  }

  function HandleProposedValueDefined(s: MssState, value: int): (s': MssState)
    ensures s'.decided && s'.proposedValue == value
    ensures !s'.propose && s'.coordinatorBuffer == []
    ensures s'.(decided := s.decided, proposedValue := s.proposedValue,
                propose := s.propose, coordinatorBuffer := s.coordinatorBuffer) == s
  {
    s.(decided := true, proposedValue := value, propose := false, coordinatorBuffer := [])
  }

  /** initialState(): clears every per-epoch field and the proposed value. */
  function InitialState(s: MssState): (s': MssState)
    ensures FreshEpoch(s') && s'.proposedValue == 0
    ensures s'.(coordinatorBuffer := s.coordinatorBuffer, ackCount := s.ackCount,
                nackCount := s.nackCount, mssBuffer := s.mssBuffer,
                mssBuffersMap := s.mssBuffersMap, propose := s.propose,
                allMhSent := s.allMhSent, proposedValue := s.proposedValue,
                coordinatorAlreadyProposedValue := s.coordinatorAlreadyProposedValue) == s
  {
    s.(propose := false, proposedValue := 0, allMhSent := false,
       coordinatorAlreadyProposedValue := false, coordinatorBuffer := [],
       ackCount := 0, nackCount := 0, mssBuffer := [], mssBuffersMap := map[])
  }

  /** NextRound: reset the epoch, advance it, and rotate the coordinator.
      With no MSS node counted the rotation would divide by zero. */
  function HandleNextRound(s: MssState): (s': MssState)
    requires s.totalMss >= 1
    ensures FreshEpoch(s') && s'.proposedValue == 0
    ensures s'.round == s.round + 1
    ensures s'.coordinatorId == CoordinatorOf(s'.round, s.totalMss)
    ensures s'.decided == s.decided
    ensures s'.id == s.id && s'.ts == s.ts && s'.totalMss == s.totalMss && s'.totalMh == s.totalMh
  {
    var reset := InitialState(s);
    var advanced := reset.(round := reset.round + 1);
    advanced.(coordinatorId := CoordinatorOf(advanced.round, advanced.totalMss))
  }

  /** An ACK reaching the quorum decides the value held in proposedValue. */
  function HandleAck(s: MssState): (r: Transition<MssState>)
    ensures s.ackCount + 1 >= Quorum(s.totalMss) ==>
      && r.state.decided
      && r.state.proposedValue == s.proposedValue
      && r.state.ackCount == 0 && r.state.nackCount == 0
      && r.state.coordinatorBuffer == [] && !r.state.propose
      && r.out == [Broadcast(ProposedValueDefined(s.proposedValue))]
      && r.state.(decided := s.decided, propose := s.propose, ackCount := s.ackCount,
                  nackCount := s.nackCount, coordinatorBuffer := s.coordinatorBuffer) == s
    ensures s.ackCount + 1 < Quorum(s.totalMss) ==>
      r.state == s.(ackCount := s.ackCount + 1) && r.out == []
  {
    var counted := s.(ackCount := s.ackCount + 1);
    if counted.ackCount >= Quorum(counted.totalMss) then
      var cleared := counted.(ackCount := 0, nackCount := 0);
      var decision := ProposedValueDefined(cleared.proposedValue);
      Transition(HandleProposedValueDefined(cleared, decision.value), [Broadcast(decision)])
    else
      Transition(counted, [])
  }

  /** A NACK reaching the quorum moves this node, and by broadcast every other
      one, to the next epoch. */
  function HandleNack(s: MssState): (r: Transition<MssState>)
    requires s.totalMss >= 1
    ensures s.nackCount + 1 >= Quorum(s.totalMss) ==>
      && r.state.round == s.round + 1
      && FreshEpoch(r.state)
      && r.state.coordinatorId == CoordinatorOf(r.state.round, s.totalMss)
      && r.state.decided == s.decided
      && r.state.proposedValue == 0
      && r.state.id == s.id && r.state.ts == s.ts
      && r.state.totalMss == s.totalMss && r.state.totalMh == s.totalMh
      && r.out == [Broadcast(NextRound)]
    ensures s.nackCount + 1 < Quorum(s.totalMss) ==>
      r.state == s.(nackCount := s.nackCount + 1) && r.out == []
  {
    var counted := s.(nackCount := s.nackCount + 1);
    if counted.nackCount >= Quorum(counted.totalMss) then
      var cleared := counted.(ackCount := 0, nackCount := 0);
      Transition(HandleNextRound(cleared), [Broadcast(NextRound)])
    else
      Transition(counted, [])
  }

  function HandleMHValue(s: MssState, value: int, timestamp: int): (s': MssState)
    ensures s'.mssBuffer == s.mssBuffer + [Stamped(value, timestamp)]
    ensures s'.mssBuffersMap == s.mssBuffersMap[s.id := |s.mssBuffer| + 1]
    ensures s'.(mssBuffer := s.mssBuffer, mssBuffersMap := s.mssBuffersMap) == s
  {
    var grown := s.(mssBuffer := s.mssBuffer + [Stamped(value, timestamp)]);
    grown.(mssBuffersMap := grown.mssBuffersMap[grown.id := |grown.mssBuffer|])
  }

  function HandleBufferSize(s: MssState, id: int, bufferSize: int): (s': MssState)
    ensures s'.mssBuffersMap == s.mssBuffersMap[id := bufferSize]
    ensures s'.(mssBuffersMap := s.mssBuffersMap) == s
  {
    s.(mssBuffersMap := s.mssBuffersMap[id := bufferSize])
  }

  /** The messages whose handling needs a non-zero MSS count. */
  predicate NeedsMssCount(msg: Message) {
    msg.Nack? || msg.NextRound?
  }

  /** One message of the inbox; kinds an MSS does not handle (NotifyRound) are ignored. */
  function Handle(s: MssState, msg: Message, reject: bool): (r: Transition<MssState>)
    requires NeedsMssCount(msg) ==> s.totalMss >= 1
    ensures r.state.id == s.id && r.state.ts == s.ts
    ensures r.state.totalMss == s.totalMss && r.state.totalMh == s.totalMh
    ensures s.decided ==> r.state.decided
    ensures r.state.round == s.round || r.state.round == s.round + 1
    ensures r.state.round == s.round + 1 ==>
      && s.totalMss >= 1
      && FreshEpoch(r.state)
      && r.state.coordinatorId == CoordinatorOf(r.state.round, s.totalMss)
    ensures r.state.round == s.round ==> r.state.coordinatorId == s.coordinatorId
    ensures r.state.round == s.round && (s.propose || s.decided) ==>
      r.state.propose || r.state.decided
    ensures r.state.round == s.round && s.coordinatorAlreadyProposedValue ==>
      r.state.coordinatorAlreadyProposedValue
    ensures Count(r.out, IsProposal) == 0 && Count(r.out, IsTrial) == 0
  {
    match msg
    case ProposeValue(value, timestamp) => Transition(HandleProposeValue(s, value, timestamp), [])
    case TryValue(_) => Transition(s, HandleTryValue(s, reject))
    case Ack => HandleAck(s)
    case Nack => HandleNack(s)
    case ProposedValueDefined(value) => Transition(HandleProposedValueDefined(s, value), [])
    case NextRound => Transition(HandleNextRound(s), [])
    case MHValue(value, timestamp) => Transition(HandleMHValue(s, value, timestamp), [])
    case BufferSize(id, bufferSize) => Transition(HandleBufferSize(s, id, bufferSize), [])
    case NotifyRound(_) => Transition(s, [])
  }

  /** handleMessages: the inbox in order, with one random draw per message. */
  function HandleInbox(s: MssState, inbox: seq<Message>, rejects: seq<bool>): (r: Transition<MssState>)
    requires |rejects| == |inbox|
    requires s.totalMss >= 1 || forall i | 0 <= i < |inbox| :: !NeedsMssCount(inbox[i])
    ensures r.state.id == s.id && r.state.ts == s.ts
    ensures r.state.totalMss == s.totalMss && r.state.totalMh == s.totalMh
    ensures s.decided ==> r.state.decided
    ensures s.round <= r.state.round
    ensures Count(r.out, IsProposal) == 0 && Count(r.out, IsTrial) == 0
    decreases |inbox|
  {
    if inbox == [] then Transition(s, [])
    else
      var first := Handle(s, inbox[0], rejects[0]);
      var rest := HandleInbox(first.state, inbox[1..], rejects[1..]);
      CountAppend(first.out, rest.out, IsProposal);
      CountAppend(first.out, rest.out, IsTrial);
      Transition(rest.state, first.out + rest.out)
  }

  // ----------------------------------------------------------- round phases

  /** The guard under which preStep proposes a collected MH value. */
  predicate ProposalDue(s: MssState) {
    !s.propose && s.allMhSent && !s.decided && s.mssBuffer != []
  }

  /** proposeValue(): send the first collected MH value to the coordinator, and
      buffer it directly when this node is the coordinator. The message's
      timestamp is filled with the value, as the source does. */
  function ProposeToCoordinator(s: MssState, cmp: Comparators): (r: Transition<MssState>)
    requires s.mssBuffer != []
    ensures |r.out| == 1 && r.out[0].Send? && r.out[0].to == s.coordinatorId
    ensures r.out[0].msg.ProposeValue?
    ensures r.out[0].msg.timestamp == r.out[0].msg.value == r.state.proposedValue
    ensures exists e :: e in s.mssBuffer && e.value == r.state.proposedValue
    ensures r.state.propose
    ensures r.state.coordinatorBuffer == s.coordinatorBuffer +
      (if s.id == s.coordinatorId then [Stamped(r.state.proposedValue, r.state.proposedValue)] else [])
    ensures r.state.(propose := s.propose, proposedValue := s.proposedValue,
                     coordinatorBuffer := s.coordinatorBuffer) == s
  {
    var chosen := First(s.mssBuffer, cmp.mhValue);
    var msg := ProposeValue(chosen.value, chosen.value);
    var proposed := s.(proposedValue := chosen.value, propose := true);
    var buffered :=
      if proposed.id == proposed.coordinatorId
      then HandleProposeValue(proposed, msg.value, msg.timestamp)
      else proposed;
    Transition(buffered, [Send(s.coordinatorId, msg)])
  }

  /** preStep: refresh the population counts, propose once all MH values have
      been collected, and re-announce a decision every round. */
  function PreStep(s: MssState, dir: Directory, cmp: Comparators): (r: Transition<MssState>)
    ensures r.state.totalMss == dir.totalMss && r.state.totalMh == dir.totalMh
    ensures r.state.id == s.id && r.state.round == s.round && r.state.ts == s.ts
    ensures r.state.decided == s.decided && r.state.coordinatorId == s.coordinatorId
    ensures r.state.coordinatorAlreadyProposedValue == s.coordinatorAlreadyProposedValue
    ensures r.state.mssBuffer == s.mssBuffer && r.state.mssBuffersMap == s.mssBuffersMap
    ensures r.state.ackCount == s.ackCount && r.state.nackCount == s.nackCount
    ensures r.state.allMhSent == s.allMhSent
    ensures Count(r.out, IsProposal) == (if ProposalDue(s) then 1 else 0)
    ensures Count(r.out, IsTrial) == 0
    ensures ProposalDue(s) ==>
      && r.state.propose
      && r.out == [Send(s.coordinatorId, ProposeValue(r.state.proposedValue, r.state.proposedValue))]
      && (exists e :: e in s.mssBuffer && e.value == r.state.proposedValue)
    ensures !ProposalDue(s) ==>
      && r.state == s.(totalMss := dir.totalMss, totalMh := dir.totalMh)
      && r.out == (if s.decided then [Broadcast(ProposedValueDefined(s.proposedValue))] else [])
  {
    var counted := s.(totalMss := dir.totalMss, totalMh := dir.totalMh);
    var proposal :=
      if ProposalDue(counted) then ProposeToCoordinator(counted, cmp) else Transition(counted, []);
    var announce :=
      if proposal.state.decided
      then [Broadcast(ProposedValueDefined(proposal.state.proposedValue))]
      else [];
    assert Count(announce, IsProposal) == 0;
    CountAppend(proposal.out, announce, IsProposal);
    CountAppend(proposal.out, announce, IsTrial);
    Transition(proposal.state, proposal.out + announce)
  }

  /** The guard under which postStep issues a trial value. */
  predicate TrialDue(s: MssState) {
    |s.coordinatorBuffer| >= Quorum(s.totalMss) && !s.coordinatorAlreadyProposedValue
  }

  /** The trial part of postStep: the first buffered proposal becomes the
      trial value, and the proposal buffer is emptied. */
  function IssueTrial(s: MssState, cmp: Comparators): (r: Transition<MssState>)
    requires s.coordinatorBuffer != []
    ensures r.out == [Broadcast(TryValue(r.state.proposedValue))]
    ensures exists e :: e in s.coordinatorBuffer && e.value == r.state.proposedValue
    ensures r.state.coordinatorAlreadyProposedValue && r.state.coordinatorBuffer == []
    ensures r.state.(coordinatorAlreadyProposedValue := s.coordinatorAlreadyProposedValue,
                     proposedValue := s.proposedValue,
                     coordinatorBuffer := s.coordinatorBuffer) == s
  {
    var value := First(s.coordinatorBuffer, cmp.proposeValue).value;
    Transition(
      s.(coordinatorAlreadyProposedValue := true, proposedValue := value, coordinatorBuffer := []),
      [Broadcast(TryValue(value))])
  }

  /** checkAllMHSent(): the flag rises once the counts reported by every MSS add
      up to the number of MH nodes, and is never lowered here. */
  function CheckAllMhSent(s: MssState): (s': MssState)
    ensures s'.allMhSent <==> s.allMhSent || Total(s.mssBuffersMap) == s.totalMh
    ensures s'.(allMhSent := s.allMhSent) == s
  {
    if Total(s.mssBuffersMap) == s.totalMh then s.(allMhSent := true) else s
  }

  /** postStep: possibly issue the trial value, report this node's count while
      not every MH value is known, tell the MHs the epoch, and tick the clock.
      A trial due with an empty buffer (only possible when no MSS is counted)
      would read past the end of the buffer. */
  function PostStep(s: MssState, cmp: Comparators): (r: Transition<MssState>)
    requires TrialDue(s) ==> s.coordinatorBuffer != []
    ensures |r.out| >= 1
    ensures r.state.ts == s.ts + 1
    ensures r.state.id == s.id && r.state.round == s.round && r.state.decided == s.decided
    ensures r.state.propose == s.propose && r.state.coordinatorId == s.coordinatorId
    ensures r.state.totalMss == s.totalMss && r.state.totalMh == s.totalMh
    ensures r.state.mssBuffer == s.mssBuffer && r.state.mssBuffersMap == s.mssBuffersMap
    ensures r.state.ackCount == s.ackCount && r.state.nackCount == s.nackCount
    ensures r.state.allMhSent <==> s.allMhSent || Total(s.mssBuffersMap) == s.totalMh
    ensures r.state.coordinatorAlreadyProposedValue <==>
      s.coordinatorAlreadyProposedValue || TrialDue(s)
    ensures TrialDue(s) ==>
      && r.state.coordinatorBuffer == []
      && r.out[0] == Broadcast(TryValue(r.state.proposedValue))
      && exists e :: e in s.coordinatorBuffer && e.value == r.state.proposedValue
    ensures !TrialDue(s) ==>
      r.state.coordinatorBuffer == s.coordinatorBuffer && r.state.proposedValue == s.proposedValue
    ensures Count(r.out, IsTrial) == (if TrialDue(s) then 1 else 0)
    ensures Count(r.out, IsProposal) == 0
    ensures Broadcast(BufferSize(s.id, |s.mssBuffer|)) in r.out <==> !s.allMhSent
    ensures r.out[|r.out| - 1] == Broadcast(NotifyRound(s.round))
  {
    var trial := if TrialDue(s) then IssueTrial(s, cmp) else Transition(s, []);
    var report := Report(trial.state);
    CountAppend(trial.out, report.out, IsTrial);
    CountAppend(trial.out, report.out, IsProposal);
    Transition(report.state, trial.out + report.out)
  }

  /** The bookkeeping part of postStep, after the trial. */
  function Report(s: MssState): (r: Transition<MssState>)
    ensures r.state.allMhSent <==> s.allMhSent || Total(s.mssBuffersMap) == s.totalMh
    ensures r.state.ts == s.ts + 1
    ensures r.state.(allMhSent := s.allMhSent, ts := s.ts) == s
    ensures Count(r.out, IsTrial) == 0 && Count(r.out, IsProposal) == 0
    ensures |r.out| >= 1 && r.out[|r.out| - 1] == Broadcast(NotifyRound(s.round))
    ensures Broadcast(BufferSize(s.id, |s.mssBuffer|)) in r.out <==> !s.allMhSent
  {
    var sizes := if !s.allMhSent then [Broadcast(BufferSize(s.id, |s.mssBuffer|))] else [];
    var checked := CheckAllMhSent(s);
    var notify := [Broadcast(NotifyRound(checked.round))];
    CountAppend(sizes, notify, IsTrial);
    CountAppend(sizes, notify, IsProposal);
    Transition(checked.(ts := checked.ts + 1), sizes + notify)
  }

  /** One simulated round of an MSS node: its inbox, then preStep, then postStep.
      The directory always counts at least this node. */
  function Round(s: MssState, inbox: seq<Message>, rejects: seq<bool>,
                 dir: Directory, cmp: Comparators): (r: Transition<MssState>)
    requires |rejects| == |inbox|
    requires s.totalMss >= 1 || forall i | 0 <= i < |inbox| :: !NeedsMssCount(inbox[i])
    requires dir.totalMss >= 1
    ensures r.state.ts == s.ts + 1
    ensures r.state.id == s.id && r.state.totalMss == dir.totalMss
    ensures s.decided ==> r.state.decided
    ensures s.round <= r.state.round
  {
    var handled := HandleInbox(s, inbox, rejects);
    var pre := PreStep(handled.state, dir, cmp);
    var post := PostStep(pre.state, cmp);
    Transition(post.state, handled.out + pre.out + post.out)
  }
}
