/** Proposer side: the mobile host (MH). It offers its own id as its value to
    the MSS it is connected to, once per epoch it observes, and ticks a local
    clock every round. Which MSS is in radio range is a parameter. */
module MhNode {
  import opened Messages

  datatype MhState = MhState(id: int, proposed: bool, ts: nat, round: int, proposedValue: int)

  /** A new MH: its value is fixed to its id when the node is constructed. */
  function Init(id: int): (s: MhState)
    ensures s.id == id && s.proposedValue == id
    ensures !s.proposed && s.ts == 0 && s.round == 0
  {
    MhState(id, false, 0, 0, id)
  }

  /** A NotifyRound naming another epoch adopts it and allows a new proposal;
      one naming the current epoch changes nothing. */
  function HandleNotifyRound(s: MhState, round: int): (s': MhState)
    ensures s'.round == round
    ensures round != s.round ==> !s'.proposed
    ensures round == s.round ==> s' == s
    ensures s'.(round := s.round, proposed := s.proposed) == s
  {
    if round != s.round then s.(round := round, proposed := false) else s
  }

  /** Every other kind of message is ignored. */
  function Handle(s: MhState, msg: Message): (s': MhState)
    ensures !msg.NotifyRound? ==> s' == s
    ensures msg.NotifyRound? ==> s' == HandleNotifyRound(s, msg.round)
  {
    match msg
    case NotifyRound(round) => HandleNotifyRound(s, round)
    case _ => s
  }

  /** The epoch named by the last NotifyRound of `inbox`, or `current` if there is none. */
  function LastRound(inbox: seq<Message>, current: int): int
    decreases |inbox|
  {
    if inbox == [] then current
    else if inbox[|inbox| - 1].NotifyRound? then inbox[|inbox| - 1].round
    else LastRound(inbox[..|inbox| - 1], current)
  }

  /** Every NotifyRound in `inbox` names the epoch `round`. */
  predicate OnlyRound(inbox: seq<Message>, round: int) {
    forall i | 0 <= i < |inbox| :: inbox[i].NotifyRound? ==> inbox[i].round == round
  }

  /** handleMessages: the inbox in order. The node ends in the epoch of the
      last notification, and keeps its proposal only if no notification named
      another epoch. */
  function HandleInbox(s: MhState, inbox: seq<Message>): (s': MhState)
    ensures s'.id == s.id && s'.ts == s.ts && s'.proposedValue == s.proposedValue
    ensures s'.round == LastRound(inbox, s.round)
    ensures s'.proposed <==> s.proposed && OnlyRound(inbox, s.round)
    decreases |inbox|
  {
    if inbox == [] then s
    else
      var front := HandleInbox(s, inbox[..|inbox| - 1]);
      var last := inbox[|inbox| - 1];
      assert forall i | 0 <= i < |inbox| - 1 :: inbox[..|inbox| - 1][i] == inbox[i];
      LastRoundOfSingleEpoch(inbox[..|inbox| - 1], s.round);
      Handle(front, last)
  }

  /** Notifications that all name `round` leave the node in `round`. */
  lemma {:induction false} LastRoundOfSingleEpoch(inbox: seq<Message>, round: int)
    ensures OnlyRound(inbox, round) ==> LastRound(inbox, round) == round
    decreases |inbox|
  {
    if inbox != [] && !inbox[|inbox| - 1].NotifyRound? {
      var front := inbox[..|inbox| - 1];
      assert forall i | 0 <= i < |front| :: front[i] == inbox[i];
      LastRoundOfSingleEpoch(front, round);
    }
  }

  /** preStep: with a connected MSS and no proposal yet this epoch, send the
      value and the local clock to that MSS. Without one, nothing happens. */
  function PreStep(s: MhState, connected: Option<int>): (r: Transition<MhState>)
    ensures connected.None? || s.proposed ==> r.state == s && r.out == []
    ensures connected.Some? && !s.proposed ==>
      && r.state.proposed
      && r.out == [Send(connected.value, MHValue(s.proposedValue, s.ts))]
    ensures r.state.(proposed := s.proposed) == s
  {
    if !s.proposed && connected.Some? then
      Transition(s.(proposed := true), [Send(connected.value, MHValue(s.proposedValue, s.ts))])
    else
      Transition(s, [])
  }

  /** postStep: the clock ticks, nothing else changes. */
  function PostStep(s: MhState): (s': MhState)
    ensures s'.ts == s.ts + 1
    ensures s'.(ts := s.ts) == s
  {
    s.(ts := s.ts + 1)
  }

  // ---------------------------------------------------------------- runs

  datatype Event = Deliver(msg: Message) | Pre(connected: Option<int>) | Post

  function Apply(s: MhState, e: Event): (r: Transition<MhState>)
    ensures r.state.id == s.id && r.state.proposedValue == s.proposedValue
    ensures e.Deliver? ==> r.out == []
    ensures Count(r.out, IsMhSubmission) == (if e.Pre? && e.connected.Some? && !s.proposed then 1 else 0)
  {
    match e
    case Deliver(msg) => Transition(Handle(s, msg), [])
    case Pre(connected) => PreStep(s, connected)
    case Post => Transition(PostStep(s), [])
  }

  function Run(s: MhState, events: seq<Event>): Transition<MhState>
    decreases |events|
  {
    if events == [] then Transition(s, [])
    else
      var first := Apply(s, events[0]);
      var rest := Run(first.state, events[1..]);
      Transition(rest.state, first.out + rest.out)
  }

  /** Every notification in the run names the epoch `round`. */
  predicate RunStaysIn(events: seq<Event>, round: int) {
    forall i | 0 <= i < |events| ::
      events[i].Deliver? && events[i].msg.NotifyRound? ==> events[i].msg.round == round
  }

  /** Number of postSteps in the run. */
  function Ticks(events: seq<Event>): nat
  {
    if events == [] then 0 else (if events[0].Post? then 1 else 0) + Ticks(events[1..])
  }

  /** Neither the id nor the value an MH offers ever changes. */
  lemma {:induction false} ValueNeverChanges(s: MhState, events: seq<Event>)
    ensures Run(s, events).state.id == s.id
    ensures Run(s, events).state.proposedValue == s.proposedValue
    decreases |events|
  {
    if events != [] {
      ValueNeverChanges(Apply(s, events[0]).state, events[1..]);
    }
  }

  /** The clock advances by exactly one per postStep. */
  lemma {:induction false} ClockCountsPostSteps(s: MhState, events: seq<Event>)
    ensures Run(s, events).state.ts == s.ts + Ticks(events)
    decreases |events|
  {
    if events != [] {
      ClockCountsPostSteps(Apply(s, events[0]).state, events[1..]);
    }
  }

  /** While every notification names the node's current epoch, it submits at
      most one value, and none if it has already submitted. */
  lemma {:induction false} AtMostOneSubmissionPerEpoch(s: MhState, events: seq<Event>)
    requires RunStaysIn(events, s.round)
    ensures Count(Run(s, events).out, IsMhSubmission) <= (if s.proposed then 0 else 1)
    ensures Run(s, events).state.round == s.round
    ensures s.proposed ==> Run(s, events).state.proposed
    decreases |events|
  {
    if events != [] {
      var first := Apply(s, events[0]);
      var rest := Run(first.state, events[1..]);
      assert first.state.round == s.round;
      assert s.proposed ==> first.state.proposed;
      assert Count(first.out, IsMhSubmission) == 1 ==> first.state.proposed;
      AtMostOneSubmissionPerEpoch(first.state, events[1..]);
      CountAppend(first.out, rest.out, IsMhSubmission);
    }
  }

  /** An MH that is never in range of an MSS sends nothing and never marks
      itself as having proposed. */
  lemma {:induction false} UnreachableNeverProposes(s: MhState, events: seq<Event>)
    requires !s.proposed
    requires forall i | 0 <= i < |events| :: events[i].Pre? ==> events[i].connected.None?
    ensures Run(s, events).out == [] && !Run(s, events).state.proposed
    decreases |events|
  {
    if events != [] {
      UnreachableNeverProposes(Apply(s, events[0]).state, events[1..]);
    }
  }

  /** A second preStep in the same epoch sends nothing. */
  lemma SecondPreStepSilent(s: MhState, connected: Option<int>, again: Option<int>)
    requires connected.Some?
    ensures PreStep(PreStep(s, connected).state, again).out == []
  {
  }

  /** Delivering the same NotifyRound twice has the effect of delivering it once. */
  lemma NotifyRoundIdempotent(s: MhState, round: int)
    ensures Handle(Handle(s, NotifyRound(round)), NotifyRound(round)) == Handle(s, NotifyRound(round))
  {
  }
}
