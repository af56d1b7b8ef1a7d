/** The loops that zero a part of a flat file page by page: hole punching and extending. */
module Zeroing {
  import opened Basics

  /** What the environment does for a page: its contents can be read, a page can be allocated. */
  datatype Fate = Fate(readable: bool, allocatable: bool)

  /** A page in the cache is read and found there, whatever the environment does. */
  function Outcome(cached: set<nat>, fates: nat -> Fate): nat -> Fate {
    (pg: nat) => if pg in cached then Fate(true, true) else fates(pg)
  }

  function Zeros(): (z: seq<int>)
    ensures |z| == PAGE_SIZE && forall k :: 0 <= k < PAGE_SIZE ==> z[k] == 0
  {
    seq(PAGE_SIZE, _ => 0)
  }

  /** zero_user_segment. */
  function ZeroSegment(page: seq<int>, from: nat, upTo: nat): (z: seq<int>)
    requires |page| == PAGE_SIZE && from <= upTo <= PAGE_SIZE
    ensures |z| == PAGE_SIZE && forall k :: 0 <= k < PAGE_SIZE ==> z[k] == if from <= k < upTo then 0 else page[k]
  {
    seq(PAGE_SIZE, k requires 0 <= k < PAGE_SIZE => if from <= k < upTo then 0 else page[k])
  }

  /** A file's pages: cached ones, and what the servers hold for the others. */
  class Mapping {
    var cached: map<nat, seq<int>>
    const server: nat -> seq<int>

    ghost predicate Valid()
      reads this
    {
      && (forall pg :: pg in cached ==> |cached[pg]| == PAGE_SIZE)
      && (forall pg: nat :: |server(pg)| == PAGE_SIZE)
    }

    constructor (server: nat -> seq<int>)
      requires forall pg: nat :: |server(pg)| == PAGE_SIZE
      ensures Valid() && cached == map[] && this.server == server
    {
      this.server := server;
      cached := map[];
    }

    ghost function PageOf(pg: nat): (p: seq<int>)
      requires Valid()
      reads this
      ensures |p| == PAGE_SIZE
    {
      if pg in cached then cached[pg] else server(pg)
    }

    /** The byte that a read of offset o returns. */
    ghost function Byte(o: nat): int
      requires Valid()
      reads this
    {
      PageOf(o / PAGE_SIZE)[o % PAGE_SIZE]
    }

    /** Zero part of a page that may have to be read first; a page that cannot be read is zeroed whole. */
    method ZeroPage(pg: nat, from: nat, upTo: nat, fates: nat -> Fate)
      requires Valid() && from <= upTo <= PAGE_SIZE
      modifies this`cached
      ensures Valid()
      ensures forall q: nat :: q != pg ==> PageOf(q) == old(PageOf(q)) && (q in cached <==> q in old(cached))
      ensures PageOf(pg) == ZeroedPage(old(PageOf(pg)), from, upTo, old(Outcome(cached.Keys, fates))(pg))
    {
      var fate := Outcome(cached.Keys, fates)(pg);
      if from > 0 || upTo < PAGE_SIZE {
        if fate.readable {
          var page := if pg in cached then cached[pg] else server(pg);
          cached := cached[pg := ZeroSegment(page, from, upTo)];
        } else if fate.allocatable {
          cached := cached[pg := ZeroSegment(Zeros(), from, upTo)];
          assert cached[pg] == Zeros();
        }
      } else if fate.allocatable {
        cached := cached[pg := Zeros()];
      }
    }

    /** The part of page pg that lies in [lo, hi). */
    static function From(pg: nat, lo: nat): (k: nat) {
      if pg * PAGE_SIZE < lo then lo - pg * PAGE_SIZE else 0
    }

    static function UpTo(pg: nat, hi: nat): (k: int) {
      if pg * PAGE_SIZE + PAGE_SIZE > hi then hi - pg * PAGE_SIZE else PAGE_SIZE
    }

    /**
     * Hole punching in a flat file. A byte is zero afterwards if it lies in the hole, cut off at the
     * file size, or in a page at the edge of the hole that was not cached and could not be read; all
     * others are kept.
     */
    method PunchHole(offset: nat, len: nat, size: nat, fates: nat -> Fate)
      requires Valid() && len > 0
      modifies this`cached
      ensures Valid()
      ensures var met := old(Outcome(cached.Keys, fates));
        forall o: nat :: Byte(o) == if Punched(offset, len, size, met, o) then 0 else old(Byte(o))
    {
      if offset >= size {
        return;
      }
      ghost var met := Outcome(cached.Keys, fates);
      var end := if offset + len < size then offset + len else size;
      var first, last := offset / PAGE_SIZE, (end - 1) / PAGE_SIZE;
      for pg := first to last + 1
        invariant Valid()
        invariant forall q: nat :: first <= q < pg ==>
          PageOf(q) == ZeroedPage(old(PageOf(q)), From(q, offset), UpTo(q, end), met(q))
        invariant forall q: nat :: !(first <= q < pg) ==>
          PageOf(q) == old(PageOf(q)) && (q in cached <==> q in old(cached))
      {
        ZeroPage(pg, From(pg, offset), UpTo(pg, end), fates);
      }
    }

    /**
     * Extending a flat file. Bytes from the old size to the end of the last page of the new size are
     * zero afterwards; a byte before the old size changes only if it shares a page with the old end
     * and that page could not be read.
     */
    method Extend(oldSize: nat, newSize: nat, fates: nat -> Fate)
      requires Valid() && oldSize < newSize
      modifies this`cached
      ensures Valid()
      ensures var met := old(Outcome(cached.Keys, fates));
        forall o: nat :: Byte(o) == if Extended(oldSize, newSize, met, o) then 0 else old(Byte(o))
    {
      ghost var met := Outcome(cached.Keys, fates);
      var first, last := oldSize / PAGE_SIZE, (newSize - 1) / PAGE_SIZE;
      for pg := first to last + 1
        invariant Valid()
        invariant forall q: nat :: first <= q < pg ==>
          PageOf(q) == ZeroedPage(old(PageOf(q)), From(q, oldSize), PAGE_SIZE, met(q))
        invariant forall q: nat :: !(first <= q < pg) ==>
          PageOf(q) == old(PageOf(q)) && (q in cached <==> q in old(cached))
      {
        var off := if pg == first then oldSize % PAGE_SIZE else 0;
        ZeroPage(pg, off, PAGE_SIZE, fates);
      }
    }
  }

  function ZeroedPage(page: seq<int>, from: nat, upTo: nat, fate: Fate): (z: seq<int>)
    requires |page| == PAGE_SIZE && from <= upTo <= PAGE_SIZE
    ensures |z| == PAGE_SIZE
  {
    var partial := from > 0 || upTo < PAGE_SIZE;
    if partial && fate.readable then ZeroSegment(page, from, upTo)
    else if fate.allocatable then Zeros()
    else page
  }

  /** The hole: from the offset to its end or the end of the file. */
  predicate InHole(offset: nat, len: nat, size: nat, o: nat) {
    offset <= o < offset + len && o < size
  }

  /** Some byte of o's page is in the hole, and some byte is not. */
  predicate OnEdge(offset: nat, len: nat, size: nat, o: nat) {
    var start := o / PAGE_SIZE * PAGE_SIZE;
    var end := if offset + len < size then offset + len else size;
    start < end && offset < start + PAGE_SIZE && (start < offset || end < start + PAGE_SIZE)
  }

  predicate Punched(offset: nat, len: nat, size: nat, fates: nat -> Fate, o: nat) {
    var fate := fates(o / PAGE_SIZE);
    offset < size &&
    if OnEdge(offset, len, size, o) then (if fate.readable then InHole(offset, len, size, o) else fate.allocatable)
    else InHole(offset, len, size, o) && fate.allocatable
  }

  predicate Extended(oldSize: nat, newSize: nat, fates: nat -> Fate, o: nat) {
    var fate, start := fates(o / PAGE_SIZE), o / PAGE_SIZE * PAGE_SIZE;
    && start < newSize && oldSize < start + PAGE_SIZE
    && (if start < oldSize && fate.readable then o >= oldSize else fate.allocatable)
  }

  /** When pages can be read and allocated, exactly the hole is zeroed. */
  lemma PunchIsExact(offset: nat, len: nat, size: nat, fates: nat -> Fate, o: nat)
    requires forall pg: nat :: fates(pg) == Fate(true, true)
    ensures Punched(offset, len, size, fates, o) <==> InHole(offset, len, size, o)
  {
  }

  /** When pages can be read and allocated, old bytes stay and everything up to the new size is zero. */
  lemma ExtendIsExact(oldSize: nat, newSize: nat, fates: nat -> Fate, o: nat)
    requires oldSize < newSize && forall pg: nat :: fates(pg) == Fate(true, true)
    ensures o < oldSize ==> !Extended(oldSize, newSize, fates, o)
    ensures oldSize <= o < newSize ==> Extended(oldSize, newSize, fates, o)
  {
  }

  /** The page can be allocated but neither read nor found in the cache. */
  predicate IsLost(cached: set<nat>, fates: nat -> Fate, pg: nat) {
    pg !in cached && !fates(pg).readable && fates(pg).allocatable
  }

  /** Punching leaves a byte outside the hole alone exactly unless its page is at the edge of the hole and lost. */
  lemma PunchSpares(offset: nat, len: nat, size: nat, cached: set<nat>, fates: nat -> Fate, o: nat)
    requires !InHole(offset, len, size, o)
    ensures Punched(offset, len, size, Outcome(cached, fates), o) <==>
      offset < size && OnEdge(offset, len, size, o) && IsLost(cached, fates, o / PAGE_SIZE)
  {
  }

  /** Extending leaves a byte of the file alone exactly unless it shares a page with the old end that is lost. */
  lemma ExtendSpares(oldSize: nat, newSize: nat, cached: set<nat>, fates: nat -> Fate, o: nat)
    requires o < oldSize < newSize
    ensures Extended(oldSize, newSize, Outcome(cached, fates), o) <==>
      o / PAGE_SIZE == oldSize / PAGE_SIZE && IsLost(cached, fates, o / PAGE_SIZE)
  {
    DivMod(o);
    DivMod(oldSize);
  }

  lemma DivMod(o: nat)
    ensures o / PAGE_SIZE * PAGE_SIZE <= o < o / PAGE_SIZE * PAGE_SIZE + PAGE_SIZE
  {
  }

  /** A file of ones, a hole of one byte and a page that cannot be read: the byte before the hole is lost. */
  method PunchLosesByte() returns (m: Mapping)
    ensures m.Valid() && !InHole(1, 1, PAGE_SIZE, 0) && m.server(0)[0] == 1 && m.Byte(0) == 0
  {
    m := new Mapping(_ => seq(PAGE_SIZE, _ => 1));
    m.PunchHole(1, 1, PAGE_SIZE, _ => Fate(false, true));
  }

  /** A file of one byte whose page cannot be read: growing it loses the byte. */
  method ExtendLosesByte() returns (m: Mapping)
    ensures m.Valid() && m.server(0)[0] == 1 && m.Byte(0) == 0
  {
    m := new Mapping(_ => seq(PAGE_SIZE, _ => 1));
    m.Extend(1, PAGE_SIZE, _ => Fate(false, true));
  }
}
