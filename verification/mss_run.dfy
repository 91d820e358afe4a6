/** Runs of one MSS node: any interleaving of message deliveries, preSteps and
    postSteps (the round driver always uses the order inbox, preStep,
    postStep, which is one such interleaving). The lemmas are the per-epoch
    promises of the protocol. */
module MssRun {
  import opened Messages
  import opened Coordination
  import opened BufferSizes
  import opened MssNode

  datatype Event =
    | Deliver(msg: Message, reject: bool)
    | Pre(dir: Directory)
    | Post

  /** Every directory reading counts at least the node itself. */
  predicate DirectoriesCountSelf(events: seq<Event>) {
    forall i | 0 <= i < |events| :: events[i].Pre? ==> events[i].dir.totalMss >= 1
  }

  /** One event, once the node has been counted by a preStep. */
  function Apply(s: MssState, e: Event, cmp: Comparators): (r: Transition<MssState>)
    requires s.totalMss >= 1
    requires e.Pre? ==> e.dir.totalMss >= 1
    ensures r.state.totalMss >= 1
    ensures r.state.id == s.id
    ensures s.decided ==> r.state.decided
    ensures s.round <= r.state.round <= s.round + 1
    ensures r.state.round != s.round ==> FreshEpoch(r.state)
    ensures e.Pre? ==> r.state.totalMss == e.dir.totalMss
    ensures !e.Pre? ==> r.state.totalMss == s.totalMss
    ensures r.state.round == s.round ==> r.state.coordinatorId == s.coordinatorId
    ensures r.state.round != s.round ==>
      r.state.coordinatorId == CoordinatorOf(r.state.round, s.totalMss)
    ensures r.state.round == s.round && (s.propose || s.decided) ==>
      r.state.propose || r.state.decided
    ensures Count(r.out, IsProposal) <= (if s.propose || s.decided then 0 else 1)
    ensures Count(r.out, IsProposal) == 1 ==> r.state.propose
    ensures r.state.round == s.round && s.coordinatorAlreadyProposedValue ==>
      r.state.coordinatorAlreadyProposedValue
    ensures Count(r.out, IsTrial) <= (if s.coordinatorAlreadyProposedValue then 0 else 1)
    ensures Count(r.out, IsTrial) == 1 ==> r.state.coordinatorAlreadyProposedValue
  {
    match e
    case Deliver(msg, reject) => Handle(s, msg, reject)
    case Pre(dir) => PreStep(s, dir, cmp)
    case Post => PostStep(s, cmp)
  }

  function Run(s: MssState, events: seq<Event>, cmp: Comparators): (r: Transition<MssState>)
    requires s.totalMss >= 1 && DirectoriesCountSelf(events)
    ensures r.state.totalMss >= 1
    decreases |events|
  {
    if events == [] then Transition(s, [])
    else
      var first := Apply(s, events[0], cmp);
      var rest := Run(first.state, events[1..], cmp);
      Transition(rest.state, first.out + rest.out)
  }

  /** `decided` is never lowered: no handler, phase or epoch reset clears it. */
  lemma {:induction false} DecidedIsMonotone(s: MssState, events: seq<Event>, cmp: Comparators)
    requires s.totalMss >= 1 && DirectoriesCountSelf(events)
    requires s.decided
    ensures Run(s, events, cmp).state.decided
    decreases |events|
  {
    if events != [] {
      DecidedIsMonotone(Apply(s, events[0], cmp).state, events[1..], cmp);
    }
  }

  /** Epochs only move forward. */
  lemma {:induction false} RoundIsMonotone(s: MssState, events: seq<Event>, cmp: Comparators)
    requires s.totalMss >= 1 && DirectoriesCountSelf(events)
    ensures s.round <= Run(s, events, cmp).state.round
    decreases |events|
  {
    if events != [] {
      RoundIsMonotone(Apply(s, events[0], cmp).state, events[1..], cmp);
    }
  }

  /** Within one epoch a node sends at most one proposal to the coordinator,
      and none once it has proposed or decided. */
  lemma {:induction false} AtMostOneProposalPerEpoch(s: MssState, events: seq<Event>, cmp: Comparators)
    requires s.totalMss >= 1 && DirectoriesCountSelf(events)
    requires Run(s, events, cmp).state.round == s.round
    ensures Count(Run(s, events, cmp).out, IsProposal) <= (if s.propose || s.decided then 0 else 1)
    decreases |events|
  {
    if events != [] {
      var first := Apply(s, events[0], cmp);
      var rest := Run(first.state, events[1..], cmp);
      RoundIsMonotone(first.state, events[1..], cmp);
      AtMostOneProposalPerEpoch(first.state, events[1..], cmp);
      CountAppend(first.out, rest.out, IsProposal);
    }
  }

  /** Within one epoch a node issues at most one trial value, and none once it
      has issued one. */
  lemma {:induction false} AtMostOneTrialPerEpoch(s: MssState, events: seq<Event>, cmp: Comparators)
    requires s.totalMss >= 1 && DirectoriesCountSelf(events)
    requires Run(s, events, cmp).state.round == s.round
    ensures Count(Run(s, events, cmp).out, IsTrial) <=
            (if s.coordinatorAlreadyProposedValue then 0 else 1)
    decreases |events|
  {
    if events != [] {
      var first := Apply(s, events[0], cmp);
      var rest := Run(first.state, events[1..], cmp);
      RoundIsMonotone(first.state, events[1..], cmp);
      AtMostOneTrialPerEpoch(first.state, events[1..], cmp);
      CountAppend(first.out, rest.out, IsTrial);
    }
  }

  /** While the population stays at `n` MSS nodes, the coordinator a node
      addresses is the one the rotation assigns to its current epoch. */
  lemma {:induction false} CoordinatorFollowsRotation(s: MssState, events: seq<Event>, cmp: Comparators, n: nat)
    requires n >= 1 && s.totalMss == n && DirectoriesCountSelf(events)
    requires forall i | 0 <= i < |events| :: events[i].Pre? ==> events[i].dir.totalMss == n
    requires s.coordinatorId == CoordinatorOf(s.round, n)
    ensures Run(s, events, cmp).state.coordinatorId == CoordinatorOf(Run(s, events, cmp).state.round, n)
    decreases |events|
  {
    if events != [] {
      CoordinatorFollowsRotation(Apply(s, events[0], cmp).state, events[1..], cmp, n);
    }
  }

  /** Values a station can turn into a trial value: those in its proposal
      buffer and those in its MH buffer. */
  function Candidates(s: MssState): set<int> {
    (set e | e in s.coordinatorBuffer :: e.value) + (set e | e in s.mssBuffer :: e.value)
  }

  /** Values an event brings into a station: a delivered proposal or MH value. */
  function Brought(e: Event): set<int> {
    if e.Deliver? && (e.msg.ProposeValue? || e.msg.MHValue?) then {e.msg.value} else {}
  }

  function BroughtBy(events: seq<Event>): set<int>
    decreases |events|
  {
    if events == [] then {} else Brought(events[0]) + BroughtBy(events[1..])
  }

  /** Every trial value broadcast in `out` is one of `values`. */
  predicate TrialValuesAmong(out: seq<Outgoing>, values: set<int>) {
    forall i | 0 <= i < |out| :: IsTrial(out[i]) ==> out[i].msg.value in values
  }

  lemma DeliveryKeepsCandidates(s: MssState, msg: Message, reject: bool)
    requires NeedsMssCount(msg) ==> s.totalMss >= 1
    ensures Candidates(Handle(s, msg, reject).state) <= Candidates(s) + Brought(Deliver(msg, reject))
  {
    var s' := Handle(s, msg, reject).state;
    match msg
    case ProposeValue(value, timestamp) =>
      assert s'.mssBuffer == s.mssBuffer;
      assert s'.coordinatorBuffer == s.coordinatorBuffer + [Stamped(value, timestamp)];
    case MHValue(value, timestamp) =>
      assert s'.coordinatorBuffer == s.coordinatorBuffer;
      assert s'.mssBuffer == s.mssBuffer + [Stamped(value, timestamp)];
    case Ack =>
      assert s'.mssBuffer == s.mssBuffer;
      assert s'.coordinatorBuffer == s.coordinatorBuffer || s'.coordinatorBuffer == [];
    case Nack =>
      assert (s'.mssBuffer == s.mssBuffer && s'.coordinatorBuffer == s.coordinatorBuffer) || FreshEpoch(s');
    case ProposedValueDefined(_) =>
      assert s'.mssBuffer == s.mssBuffer && s'.coordinatorBuffer == [];
    case NextRound =>
      assert FreshEpoch(s');
    case _ =>
      assert s'.mssBuffer == s.mssBuffer && s'.coordinatorBuffer == s.coordinatorBuffer;
  }

  /** A single event adds no candidate it does not bring, and any trial value
      it broadcasts was already a candidate. */
  lemma ApplyKeepsCandidates(s: MssState, e: Event, cmp: Comparators)
    requires s.totalMss >= 1 && (e.Pre? ==> e.dir.totalMss >= 1)
    ensures Candidates(Apply(s, e, cmp).state) <= Candidates(s) + Brought(e)
    ensures TrialValuesAmong(Apply(s, e, cmp).out, Candidates(s))
  {
    var r := Apply(s, e, cmp);
    match e
    case Deliver(msg, reject) =>
      DeliveryKeepsCandidates(s, msg, reject);
      assert Count(r.out, IsTrial) == 0;
    case Pre(dir) =>
      assert r.state.mssBuffer == s.mssBuffer;
      if ProposalDue(s.(totalMss := dir.totalMss, totalMh := dir.totalMh)) {
        var v := r.state.proposedValue;
        var e' :| e' in s.mssBuffer && e'.value == v;
        assert r.state.coordinatorBuffer == s.coordinatorBuffer ||
               r.state.coordinatorBuffer == s.coordinatorBuffer + [Stamped(v, v)];
      }
      assert Count(r.out, IsTrial) == 0;
    case Post =>
      assert r.state.mssBuffer == s.mssBuffer;
      if TrialDue(s) {
        var v := r.state.proposedValue;
        var e' :| e' in s.coordinatorBuffer && e'.value == v;
        assert v in Candidates(s);
        assert r.out[0] == Broadcast(TryValue(v));
        assert Count(r.out, IsTrial) == 1;
        forall i | 0 <= i < |r.out| && IsTrial(r.out[i])
          ensures r.out[i].msg.value in Candidates(s)
        {
          if i != 0 {
            CountTwo(r.out, 0, i);
          }
        }
      } else {
        assert Count(r.out, IsTrial) == 0;
      }
  }

  /** Two distinct trial broadcasts in `out` would make the count at least two. */
  lemma {:induction false} CountTwo(out: seq<Outgoing>, i: int, j: int)
    requires 0 <= i < j < |out| && IsTrial(out[i]) && IsTrial(out[j])
    ensures Count(out, IsTrial) >= 2
    decreases |out|
  {
    if i > 0 {
      CountTwo(out[1..], i - 1, j - 1);
    } else {
      assert !(Count(out[1..], IsTrial) == 0) by {
        assert IsTrial(out[1..][j - 1]);
      }
    }
  }

  /** Validity of trial values: every value a station broadcasts for a vote was
      in its buffers at the start of the run or was delivered to it during the
      run, as a proposal or as an MH value. */
  lemma {:induction false} TrialValuesWereProposed(s: MssState, events: seq<Event>, cmp: Comparators)
    requires s.totalMss >= 1 && DirectoriesCountSelf(events)
    ensures TrialValuesAmong(Run(s, events, cmp).out, Candidates(s) + BroughtBy(events))
    decreases |events|
  {
    if events != [] {
      var first := Apply(s, events[0], cmp);
      var rest := Run(first.state, events[1..], cmp);
      ApplyKeepsCandidates(s, events[0], cmp);
      TrialValuesWereProposed(first.state, events[1..], cmp);
      var all := Candidates(s) + BroughtBy(events);
      assert Candidates(first.state) + BroughtBy(events[1..]) <= all;
      var out := first.out + rest.out;
      forall i | 0 <= i < |out| && IsTrial(out[i])
        ensures out[i].msg.value in all
      {
        if i < |first.out| {
          assert out[i] == first.out[i];
        } else {
          assert out[i] == rest.out[i - |first.out|];
        }
      }
    }
  }

  /** The node's own entry in the count map is the size of its MH buffer, and
      is present whenever that buffer is not empty. */
  predicate OwnCountAccurate(s: MssState) {
    && (s.mssBuffer != [] ==> s.id in s.mssBuffersMap)
    && (s.id in s.mssBuffersMap ==> s.mssBuffersMap[s.id] == |s.mssBuffer|)
  }

  /** A count report can only break the map's own entry if it names this node. */
  predicate ForeignReport(s: MssState, e: Event) {
    e.Deliver? && e.msg.BufferSize? ==> e.msg.id != s.id
  }

  lemma OwnCountPreserved(s: MssState, e: Event, cmp: Comparators)
    requires s.totalMss >= 1 && (e.Pre? ==> e.dir.totalMss >= 1)
    requires OwnCountAccurate(s) && ForeignReport(s, e)
    ensures OwnCountAccurate(Apply(s, e, cmp).state)
  {
    if e.Deliver? {
      OwnCountPreservedByDelivery(s, e.msg, e.reject);
    }
  }

  lemma OwnCountPreservedByDelivery(s: MssState, msg: Message, reject: bool)
    requires NeedsMssCount(msg) ==> s.totalMss >= 1
    requires OwnCountAccurate(s)
    requires msg.BufferSize? ==> msg.id != s.id
    ensures OwnCountAccurate(Handle(s, msg, reject).state)
  {
    var s' := Handle(s, msg, reject).state;
    match msg
    case Ack =>
      assert s'.mssBuffer == s.mssBuffer && s'.mssBuffersMap == s.mssBuffersMap;
    case Nack =>
      assert (s'.mssBuffer == s.mssBuffer && s'.mssBuffersMap == s.mssBuffersMap) || FreshEpoch(s');
    case NextRound =>
      assert FreshEpoch(s');
    case _ =>
  }

  /** Collecting one MH value raises this node's contribution to the
      system-wide total by exactly one. */
  lemma CollectingRaisesTotal(s: MssState, value: int, timestamp: int)
    requires OwnCountAccurate(s)
    ensures OwnCountAccurate(HandleMHValue(s, value, timestamp))
    ensures Total(HandleMHValue(s, value, timestamp).mssBuffersMap) == Total(s.mssBuffersMap) + 1
  {
    var s' := HandleMHValue(s, value, timestamp);
    TotalPut(s.mssBuffersMap, s.id, |s.mssBuffer| + 1);
    if s.id !in s.mssBuffersMap {
      assert s.mssBuffer == [];
    }
  }

  /** A count report replaces the reporter's previous count in the total. */
  lemma ReportReplacesCount(s: MssState, id: int, bufferSize: int)
    ensures Total(HandleBufferSize(s, id, bufferSize).mssBuffersMap) ==
            Total(s.mssBuffersMap) - (if id in s.mssBuffersMap then s.mssBuffersMap[id] else 0) + bufferSize
  {
    TotalPut(s.mssBuffersMap, id, bufferSize);
  }

  /** A new epoch starts with nothing collected, so the next postStep marks
      every MH value as sent exactly when there are no MH nodes. */
  lemma NewEpochStartsUncollected(s: MssState, cmp: Comparators)
    requires s.totalMss >= 1
    ensures var next := HandleNextRound(s);
      PostStep(next, cmp).state.allMhSent <==> s.totalMh == 0
  {
  }

  /** A ProposedValueDefined delivered twice leaves the state it left the first time. */
  lemma DecisionIdempotent(s: MssState, value: int)
    ensures var once := Handle(s, ProposedValueDefined(value), false).state;
      Handle(once, ProposedValueDefined(value), false).state == once
  {
  }

  /** Applying NextRound to a node whose epoch is already fresh keeps every
      per-epoch buffer empty and advances the epoch by exactly one each time. */
  lemma NewEpochOnFreshNode(s: MssState)
    requires s.totalMss >= 1 && FreshEpoch(s)
    ensures var once := HandleNextRound(s);
      FreshEpoch(once) && once.round == s.round + 1
    ensures var twice := HandleNextRound(HandleNextRound(s));
      FreshEpoch(twice) && twice.round == s.round + 2
  {
  }

  /** The value a decided node holds is not preserved across epochs: a
      NextRound (a NACK quorum is enough) sets it to 0 while `decided` stays
      true, and the node then re-announces 0 as the decision every round. */
  lemma DecidedValueResetByNewEpoch(s: MssState, dir: Directory, cmp: Comparators)
    requires s.decided && s.totalMss >= 1
    ensures var next := HandleNextRound(s);
      && next.decided && next.proposedValue == 0
      && PreStep(next, dir, cmp).out == [Broadcast(ProposedValueDefined(0))]
  {
  }

  /** With four MSS nodes, two ACKs then two NACKs in one epoch: the
      coordinator first decides, then moves to the next epoch still decided
      but holding the value 0. One trial draws at most three votes, so this
      takes votes from more than one trial of the epoch
      (`Coordination.OneTrialReachesAtMostOneQuorum`). */
  lemma AckThenNackQuorums(s: MssState, cmp: Comparators)
    requires s.totalMss == 4 && s.ackCount == 0 && s.nackCount == 0 && !s.decided
    ensures var r := Run(s, [Deliver(Ack, false), Deliver(Ack, false),
                             Deliver(Nack, false), Deliver(Nack, false)], cmp);
      && r.state.decided && r.state.round == s.round + 1 && r.state.proposedValue == 0
      && Broadcast(ProposedValueDefined(s.proposedValue)) in r.out
      && Broadcast(NextRound) in r.out
  {
    var events := [Deliver(Ack, false), Deliver(Ack, false), Deliver(Nack, false), Deliver(Nack, false)];
    var s1 := Apply(s, events[0], cmp);
    var s2 := Apply(s1.state, events[1], cmp);
    var s3 := Apply(s2.state, events[2], cmp);
    var s4 := Apply(s3.state, events[3], cmp);
    assert s2.state.decided && s2.state.nackCount == 0;
    assert s3.state.nackCount == 1;
    assert events[1..][1..][1..][1..] == [];
    assert Run(s, events, cmp).out == s1.out + (s2.out + (s3.out + (s4.out + [])));
  }

  /** A new node enters the runs at its first preStep: once the directory
      counts it, it is in epoch 0 addressing the coordinator the rotation
      assigns to epoch 0, so every lemma above applies from there on. */
  lemma EnteringRuns(id: int, dir: Directory, cmp: Comparators)
    requires dir.totalMss >= 1
    ensures var p := PreStep(Init(id), dir, cmp);
      && p.out == []
      && p.state.totalMss >= 1 && p.state.round == 0 && !p.state.decided
      && p.state.coordinatorId == CoordinatorOf(p.state.round, p.state.totalMss)
  {
  }

  /** The events that deliver an inbox in order, each with its draw. */
  function Deliveries(inbox: seq<Message>, rejects: seq<bool>): (events: seq<Event>)
    requires |rejects| == |inbox|
    ensures |events| == |inbox| && DirectoriesCountSelf(events)
    ensures forall i | 0 <= i < |inbox| :: events[i] == Deliver(inbox[i], rejects[i])
    decreases |inbox|
  {
    if inbox == [] then []
    else [Deliver(inbox[0], rejects[0])] + Deliveries(inbox[1..], rejects[1..])
  }

  lemma CountSelfAppend(a: seq<Event>, b: seq<Event>)
    requires DirectoriesCountSelf(a) && DirectoriesCountSelf(b)
    ensures DirectoriesCountSelf(a + b)
  {
    forall i | 0 <= i < |a + b| && (a + b)[i].Pre?
      ensures (a + b)[i].dir.totalMss >= 1
    {
      if i >= |a| {
        assert (a + b)[i] == b[i - |a|];
      }
    }
  }

  /** The first step of a run over `a + b` is the first step of `a`. */
  lemma RunCons(s: MssState, a: seq<Event>, b: seq<Event>, cmp: Comparators)
    requires s.totalMss >= 1 && a != [] && DirectoriesCountSelf(a)
    requires DirectoriesCountSelf(a + b) && DirectoriesCountSelf(a[1..] + b)
    ensures var head := Apply(s, a[0], cmp);
      var rest := Run(head.state, a[1..] + b, cmp);
      Run(s, a + b, cmp) == Transition(rest.state, head.out + rest.out)
  {
    var ab := a + b;
    assert ab[0] == a[0];
    assert ab[1..] == a[1..] + b;
  }

  /** A run of one event is that event. */
  lemma RunSingle(s: MssState, e: Event, cmp: Comparators)
    requires s.totalMss >= 1 && (e.Pre? ==> e.dir.totalMss >= 1)
    ensures DirectoriesCountSelf([e])
    ensures Run(s, [e], cmp) == Transition(Apply(s, e, cmp).state, Apply(s, e, cmp).out)
  {
    assert [e][1..] == [];
    assert Apply(s, e, cmp).out + [] == Apply(s, e, cmp).out;
  }

  /** A preStep followed by a postStep, as a run. */
  lemma PhasesRun(s: MssState, dir: Directory, cmp: Comparators)
    requires s.totalMss >= 1 && dir.totalMss >= 1
    ensures var pre := PreStep(s, dir, cmp);
      var post := PostStep(pre.state, cmp);
      Run(s, [Pre(dir), Post], cmp) == Transition(post.state, pre.out + post.out)
  {
    assert [Pre(dir)] + [Post] == [Pre(dir), Post];
    assert [Pre(dir)][1..] + [Post] == [Post];
    RunCons(s, [Pre(dir)], [Post], cmp);
    var pre := Apply(s, Pre(dir), cmp);
    RunSingle(pre.state, Post, cmp);
  }

  /** The simulator's round is one of the runs: the inbox delivered in order,
      then a preStep, then a postStep. */
  lemma {:induction false} RoundIsRun(s: MssState, inbox: seq<Message>, rejects: seq<bool>,
                                      dir: Directory, cmp: Comparators)
    requires s.totalMss >= 1 && |rejects| == |inbox| && dir.totalMss >= 1
    ensures var events := Deliveries(inbox, rejects) + [Pre(dir), Post];
      DirectoriesCountSelf(events) && Run(s, events, cmp) == Round(s, inbox, rejects, dir, cmp)
    decreases |inbox|
  {
    var delivered := Deliveries(inbox, rejects);
    var phases := [Pre(dir), Post];
    CountSelfAppend(delivered, phases);
    if inbox == [] {
      assert delivered + phases == phases;
      PhasesRun(s, dir, cmp);
    } else {
      assert delivered[1..] == Deliveries(inbox[1..], rejects[1..]);
      CountSelfAppend(delivered[1..], phases);
      RunCons(s, delivered, phases, cmp);
      var first := Handle(s, inbox[0], rejects[0]);
      assert Apply(s, delivered[0], cmp) == first;
      RoundIsRun(first.state, inbox[1..], rejects[1..], dir, cmp);
      RoundAfterFirstMessage(s, inbox, rejects, dir, cmp);
    }
  }

  /** A round with a non-empty inbox is its first message followed by the
      round over the remaining inbox. */
  lemma RoundAfterFirstMessage(s: MssState, inbox: seq<Message>, rejects: seq<bool>,
                               dir: Directory, cmp: Comparators)
    requires s.totalMss >= 1 && |rejects| == |inbox| && inbox != [] && dir.totalMss >= 1
    ensures var first := Handle(s, inbox[0], rejects[0]);
      var later := Round(first.state, inbox[1..], rejects[1..], dir, cmp);
      Round(s, inbox, rejects, dir, cmp) == Transition(later.state, first.out + later.out)
  {
    var first := Handle(s, inbox[0], rejects[0]);
    var rest := HandleInbox(first.state, inbox[1..], rejects[1..]);
    var pre := PreStep(rest.state, dir, cmp);
    var post := PostStep(pre.state, cmp);
    assert HandleInbox(s, inbox, rejects) == Transition(rest.state, first.out + rest.out);
    OutAssoc(first.out, rest.out, pre.out, post.out);
  }

  lemma OutAssoc(a: seq<Outgoing>, b: seq<Outgoing>, c: seq<Outgoing>, d: seq<Outgoing>)
    ensures a + (b + c + d) == (a + b) + c + d
  {
  }
}
