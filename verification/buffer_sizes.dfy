/** The map from MSS id to the number of MH values that MSS has collected in the
    current epoch, and the total of its values that MSSNode compares with the
    number of MH nodes. */
module BufferSizes {

  lemma PickOne(keys: set<int>) returns (x: int)
    requires keys != {}
    ensures x in keys
  {
    // Derive the witness explicitly: `keys != {}` alone does not hand the
    // solver an element, and the choice below would otherwise rest on it.
    if forall y :: y !in keys {
      assert false;
    }
    x :| x in keys;
  }

  lemma MinimumExists(keys: set<int>)
    requires keys != {}
    ensures exists k :: k in keys && forall j | j in keys :: k <= j
  {
    var x := PickOne(keys);
    var rest := keys - {x};
    if rest == {} {
      assert keys == {x};
      assert forall j | j in keys :: x <= j;
    } else {
      MinimumExists(rest);
      var m :| m in rest && forall j | j in rest :: m <= j;
      var low := if x <= m then x else m;
      forall j | j in keys
        ensures low <= j
      {
        if j != x {
          assert j in rest;
        }
      }
      assert low in keys;
    }
  }

  function MinKey(keys: set<int>): (k: int)
    requires keys != {}
    ensures k in keys && forall j | j in keys :: k <= j
  {
    MinimumExists(keys);
    var k :| k in keys && forall j | j in keys :: k <= j;
    k
  }

  /** Sum of the counts held in `m`, visiting keys in increasing order. */
  function Total(m: map<int, int>): (t: int)
    ensures (forall k | k in m :: 0 <= m[k]) ==> 0 <= t
    ensures (forall k | k in m :: 0 <= m[k]) ==> (t == 0 <==> forall k | k in m :: m[k] == 0)
    decreases m.Keys
  {
    if m.Keys == {} then 0
    else
      var k := MinKey(m.Keys);
      var rest := m - {k};
      assert forall j | j in rest :: j in m && rest[j] == m[j];
      m[k] + Total(rest)
  }

  /** The total does not depend on the order keys are visited in: any key can
      be taken out first. */
  lemma {:induction false} TotalRemove(m: map<int, int>, k: int)
    requires k in m
    ensures Total(m) == m[k] + Total(m - {k})
    decreases m.Keys
  {
    var j := MinKey(m.Keys);
    if j != k {
      var mj := m - {j};
      assert k in mj;
      TotalRemove(mj, k);
      var mk := m - {k};
      assert j in mk;
      assert MinKey(mk.Keys) == j;
      assert mj - {k} == mk - {j};
    }
  }

  /** Storing `v` under `k` moves the total by `v` minus the count it replaces. */
  lemma TotalPut(m: map<int, int>, k: int, v: int)
    ensures Total(m[k := v]) == Total(m) - (if k in m then m[k] else 0) + v
  {
    TotalRemove(m[k := v], k);
    if k in m {
      assert m[k := v] - {k} == m - {k};
      TotalRemove(m, k);
    } else {
      assert m[k := v] - {k} == m;
    }
  }
}
