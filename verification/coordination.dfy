/** The two pieces of arithmetic the MSS nodes share: the vote threshold and
    the round-robin choice of coordinator. */
module Coordination {

  /** Votes needed, among `n` MSS nodes, to accept or to reject a trial value:
      half of `n`, rounded up. */
  function Quorum(n: nat): (q: nat)
    ensures q + q == n || q + q == n + 1
    ensures n >= 1 ==> 1 <= q <= n
  {
    (n + 1) / 2
  }

  /** Id of the coordinator of epoch `round` among `n` MSS nodes numbered from 1. */
  function CoordinatorOf(round: nat, n: nat): (c: int)
    requires n >= 1
    ensures 1 <= c <= n
  {
    round % n + 1
  }

  lemma MulGrows(d: int, n: nat)
    requires d >= 1 && n >= 1
    ensures d * n >= n
  {
  }

  lemma MulSub(x: int, y: int, n: nat)
    ensures x * n - y * n == (x - y) * n
  {
  }

  /** `a % n` is the remainder of any decomposition `a == q * n + r` with `0 <= r < n`. */
  lemma ModOfDecomposition(a: nat, n: nat, q: nat, r: nat)
    requires n >= 1 && r < n && a == q * n + r
    ensures a % n == r
  {
    var q', r' := a / n, a % n;
    assert a == q' * n + r';
    MulSub(q', q, n);
    assert (q' - q) * n == r - r';
    if q' > q {
      MulGrows(q' - q, n);
    } else if q' < q {
      MulSub(q, q', n);
      MulGrows(q - q', n);
    }
  }

  /** The coordinator of the next epoch is the next id, wrapping from `n` to 1. */
  lemma CoordinatorSucceeds(round: nat, n: nat)
    requires n >= 1
    ensures CoordinatorOf(round + 1, n) ==
            if CoordinatorOf(round, n) == n then 1 else CoordinatorOf(round, n) + 1
  {
    var q, m := round / n, round % n;
    assert round == q * n + m;
    if m + 1 < n {
      ModOfDecomposition(round + 1, n, q, m + 1);
    } else {
      assert round + 1 == (q + 1) * n + 0;
      ModOfDecomposition(round + 1, n, q + 1, 0);
    }
  }

  /** The rotation repeats every `n` epochs. */
  lemma CoordinatorPeriodic(round: nat, n: nat)
    requires n >= 1
    ensures CoordinatorOf(round + n, n) == CoordinatorOf(round, n)
  {
    var q, m := round / n, round % n;
    assert round == q * n + m;
    assert round + n == (q + 1) * n + m;
    ModOfDecomposition(round + n, n, q + 1, m);
  }

  /** Every MSS id in 1..n coordinates one of any `n` consecutive epochs. */
  lemma EveryNodeCoordinates(round: nat, n: nat, id: int)
    requires n >= 1 && 1 <= id <= n
    ensures exists r :: round <= r < round + n && CoordinatorOf(r, n) == id
  {
    var q, m := round / n, round % n;
    assert round == q * n + m;
    var k: nat;
    if id - 1 >= m {
      k := id - 1 - m;
      assert round + k == q * n + (id - 1);
      ModOfDecomposition(round + k, n, q, id - 1);
    } else {
      k := n - m + id - 1;
      assert round + k == (q + 1) * n + (id - 1);
      ModOfDecomposition(round + k, n, q + 1, id - 1);
    }
    assert CoordinatorOf(round + k, n) == id;
  }

  /** `n` votes can hold an accepting quorum and a disjoint rejecting quorum
      exactly when `n` is even. */
  lemma BothQuorumsFitIffEven(n: nat)
    ensures Quorum(n) + Quorum(n) <= n <==> n % 2 == 0
  {
  }

  /** A trial value is broadcast to the other MSS nodes and never handled by
      the node that issues it, so it draws at most `n - 1` votes. Those votes
      never reach both quorums: a coordinator that reaches both within one
      epoch has counted votes from more than one trial. */
  lemma OneTrialReachesAtMostOneQuorum(n: nat, acks: nat, nacks: nat)
    requires n >= 1 && acks + nacks <= n - 1
    ensures acks < Quorum(n) || nacks < Quorum(n)
  {
  }

  /** Worked values: thresholds for 1, 4 and 5 nodes, and the coordinators of
      epochs 0 to 4 among 4 nodes. */
  lemma Examples()
    ensures Quorum(1) == 1 && Quorum(4) == 2 && Quorum(5) == 3
    ensures CoordinatorOf(0, 4) == 1 && CoordinatorOf(1, 4) == 2 && CoordinatorOf(2, 4) == 3
    ensures CoordinatorOf(3, 4) == 4 && CoordinatorOf(4, 4) == 1
  {
  }
}
