/** The closed catalogue of messages exchanged by mobile hosts (MH) and mobile
    support stations (MSS), and the outbox a handler fills instead of calling
    the simulator's send and broadcast primitives. */
module Messages {

  datatype Option<+T> = None | Some(value: T)

  /** A value together with the timestamp it travels with. */
  datatype Stamped = Stamped(value: int, timestamp: int)

  datatype Message =
    | ProposeValue(value: int, timestamp: int)  // an MSS proposes a value to the coordinator
    | TryValue(value: int)                      // the coordinator asks every MSS to vote
    | Ack                                       // a vote for the trial value
    | Nack                                      // a vote against the trial value
    | ProposedValueDefined(value: int)          // the decision
    | NextRound                                 // move every MSS to the next epoch
    | MHValue(value: int, timestamp: int)       // an MH submits its value to its MSS
    | BufferSize(id: int, bufferSize: int)      // how many MH values MSS `id` holds
    | NotifyRound(round: int)                   // an MSS tells the MHs its epoch

  /** A unicast to the node with the given id, or a broadcast to every neighbour. */
  datatype Outgoing = Send(to: int, msg: Message) | Broadcast(msg: Message)

  /** What a handler produces: the node's next state and the messages it sends, in order. */
  datatype Transition<S> = Transition(state: S, out: seq<Outgoing>)

  predicate IsProposal(o: Outgoing) {
    o.Send? && o.msg.ProposeValue?
  }

  predicate IsTrial(o: Outgoing) {
    o.Broadcast? && o.msg.TryValue?
  }

  predicate IsMhSubmission(o: Outgoing) {
    o.Send? && o.msg.MHValue?
  }

  /** Number of messages in `out` that satisfy `p`. */
  function Count(out: seq<Outgoing>, p: Outgoing -> bool): (n: nat)
    ensures n <= |out|
    ensures n == 0 <==> forall i | 0 <= i < |out| :: !p(out[i])
  {
    if out == [] then 0
    else (if p(out[0]) then 1 else 0) + Count(out[1..], p)
  }

  lemma {:induction false} CountAppend(a: seq<Outgoing>, b: seq<Outgoing>, p: Outgoing -> bool)
    ensures Count(a + b, p) == Count(a, p) + Count(b, p)
  {
    if a == [] {
      assert a + b == b;
    } else {
      assert (a + b)[0] == a[0];
      assert (a + b)[1..] == a[1..] + b;
      CountAppend(a[1..], b, p);
    }
  }
}
