/** The pool of inode numbers that a client takes from for optimistic creates. */
module InodePool {
  import opened Basics

  /** A half-open range [lo, hi) that the server set aside for this client. */
  datatype Range = Range(lo: nat, hi: nat) {
    predicate Has(ino: nat) {
      lo <= ino < hi
    }
  }

  ghost predicate Disjoint(r: Range, s: Range) {
    forall ino: nat :: !(r.Has(ino) && s.Has(ino))
  }

  /** Takes and refills in any order; each is one region under the pool lock. */
  class Pool {
    var nextIno: nat
    var remaining: nat
    ghost var ranges: set<Range>
    ghost var handed: seq<nat>

    /**
     * Numbers are handed out at most once and only from ranges of the server; what the pool still
     * holds lies in one of the ranges and has not been handed out.
     */
    ghost predicate Valid()
      reads this
    {
      && Distinct(handed)
      && (forall i :: 0 <= i < |handed| ==> exists r :: r in ranges && r.Has(handed[i]))
      && (forall r, s :: r in ranges && s in ranges && r != s ==> Disjoint(r, s))
      && (remaining > 0 ==> exists r :: r in ranges && r.lo <= nextIno && nextIno + remaining <= r.hi)
      && (forall i :: 0 <= i < |handed| ==> !(nextIno <= handed[i] < nextIno + remaining))
    }

    constructor ()
      ensures Valid() && remaining == 0 && handed == [] && ranges == {}
    {
      nextIno, remaining, ranges, handed := 0, 0, {}, [];
    }

    /** pool_take_inode; zero means that the pool is empty. */
    method Take() returns (ino: nat)
      requires Valid()
      modifies this
      ensures Valid() && ranges == old(ranges)
      ensures old(remaining) == 0 ==> ino == 0 && handed == old(handed) && nextIno == old(nextIno) && remaining == 0
      ensures old(remaining) > 0 ==> ino == old(nextIno) && nextIno == ino + 1 && remaining == old(remaining) - 1
      ensures old(remaining) > 0 ==> handed == old(handed) + [ino] && ino !in old(handed)
      ensures old(remaining) > 0 ==> exists r :: r in ranges && r.Has(ino)
    {
      ino := 0;
      if remaining > 0 {
        ghost var r :| r in ranges && r.lo <= nextIno && nextIno + remaining <= r.hi;
        ino := nextIno;
        nextIno := nextIno + 1;
        remaining := remaining - 1;
        handed := handed + [ino];
        assert r.Has(ino) && r.lo <= nextIno && nextIno + remaining <= r.hi;
        assert forall i :: 0 <= i < |handed| - 1 ==> handed[i] == old(handed)[i];
      }
    }

    /** The locked region of pool_refill, for a range that the server never gave out before. */
    method Refill(start: nat, end: nat)
      requires Valid() && start <= end && forall r :: r in ranges ==> Disjoint(r, Range(start, end))
      modifies this
      ensures Valid() && ranges == old(ranges) + {Range(start, end)} && handed == old(handed)
      ensures nextIno == start && remaining == (end - start) % U32
    {
      assert forall i :: 0 <= i < |handed| ==> !Range(start, end).Has(handed[i]);
      nextIno := start;
      remaining := (end - start) % U32;
      ranges := ranges + {Range(start, end)};
    }
  }
}
