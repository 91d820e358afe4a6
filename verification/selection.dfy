/** Choosing an entry of a buffer the way MSSNode does: sort the buffer with a
    comparator and take element 0. The sort is stable, so element 0 is the
    earliest entry that no other entry sorts strictly before; scanning from
    the left and keeping an entry only when a later one sorts strictly before
    it finds that same entry. */
module Selection {

  /** `before(a, b)`: the comparator places `a` strictly before `b`. */
  ghost predicate StrictOrder<T(!new)>(before: (T, T) -> bool) {
    && (forall x :: !before(x, x))
    && (forall x, y, z :: before(x, y) && before(y, z) ==> before(x, z))
  }

  /** The entry the sort puts first. */
  function First<T(==)>(buf: seq<T>, before: (T, T) -> bool): (r: T)
    requires buf != []
    ensures r in buf
  {
    if |buf| == 1 then buf[0]
    else
      var best := First(buf[..|buf| - 1], before);
      var last := buf[|buf| - 1];
      if before(last, best) then last else best
  }

  /** For a comparator that is a strict order, no entry of the buffer sorts
      strictly before the chosen one. */
  lemma {:induction false} FirstIsMinimal<T(!new)>(buf: seq<T>, before: (T, T) -> bool)
    requires buf != [] && StrictOrder(before)
    ensures forall x | x in buf :: !before(x, First(buf, before))
  {
    if |buf| > 1 {
      var prefix := buf[..|buf| - 1];
      var last := buf[|buf| - 1];
      FirstIsMinimal(prefix, before);
      var best := First(prefix, before);
      assert buf == prefix + [last];
      forall x | x in buf
        ensures !before(x, First(buf, before))
      {
        if x != last {
          assert x in prefix;
        }
      }
    }
  }
}
