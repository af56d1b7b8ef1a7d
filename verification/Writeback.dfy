/**
 * The data path of batched writeback: dirty pages are grouped by needle, and each group goes out
 * as one whole-needle write or as a list of partial writes of contiguous pages.
 */
module Writeback {
  import opened Arithmetic
  import opened Basics
  import opened Layout
  import WbProtocol

  /** A page taken for writeback: its file offset and the bytes that count. */
  datatype Page = Page(offset: nat, data: seq<int>) {
    predicate Has(o: nat, v: int) {
      offset <= o < offset + |data| && data[o - offset] == v
    }
  }

  /** A request to a volume server: overwrite part of a needle. */
  datatype Write = Write(needle: Location, offset: nat, data: seq<int>)

  /** Pages are aligned, at most a page long and distinct. */
  ghost predicate IsBatch(pages: seq<Page>) {
    && (forall i :: 0 <= i < |pages| ==>
      pages[i].offset % PAGE_SIZE == 0 && |pages[i].data| <= PAGE_SIZE && pages[i].offset + PAGE_SIZE <= OFFSET_LIMIT)
    && (forall i, j :: 0 <= i < j < |pages| ==> pages[i].offset != pages[j].offset)
  }

  /** Chunks of whole pages that are at most a mebibyte, in which offsets on a needle are counted. */
  predicate Suits(chunk: nat) {
    chunk <= CHUNK_SIZE && chunk % PAGE_SIZE == 0
  }

  /** Each chunk that can be located has a needle of its own. */
  ghost predicate LocatesChunks(a: Addressing)
    requires a.KeysMatch()
  {
    forall o1: nat, o2: nat :: o1 < OFFSET_LIMIT && o2 < OFFSET_LIMIT && a.Locate(o1).Located? ==>
      (a.Locate(o1) == a.Locate(o2) <==> o1 / a.Chunk() == o2 / a.Chunk())
  }

  ghost predicate IsAddressed(a: Addressing) {
    a.KeysMatch() && Suits(a.Chunk()) && LocatesChunks(a)
  }

  /** Batches are cut at mebibytes; where chunks divide a mebibyte that makes no difference. */
  ghost predicate IsCut(a: Addressing, pages: seq<Page>) {
    || CHUNK_SIZE % a.Chunk() == 0
    || forall i, j :: 0 <= i < |pages| && 0 <= j < |pages| ==>
      pages[i].offset / CHUNK_SIZE == pages[j].offset / CHUNK_SIZE
  }

  /** The request puts v at file offset o. */
  ghost predicate Puts(a: Addressing, w: Write, o: nat, v: int)
    requires a.KeysMatch()
  {
    && w.needle == a.Locate(o)
    && w.offset <= o % CHUNK_SIZE < w.offset + |w.data|
    && w.data[o % CHUNK_SIZE - w.offset] == v
  }

  ghost predicate Delivers(a: Addressing, writes: seq<Write>, o: nat, v: int)
    requires a.KeysMatch()
  {
    exists k :: 0 <= k < |writes| && Puts(a, writes[k], o, v)
  }

  ghost predicate Holds(pages: seq<Page>, lo: nat, hi: nat, o: nat, v: int)
    requires lo <= hi <= |pages|
  {
    exists j :: lo <= j < hi && pages[j].Has(o, v)
  }

  /** The request stays within the chunk and the mebibyte of the file offset b at which it begins. */
  ghost predicate BeginsAt(a: Addressing, w: Write, b: nat)
    requires a.KeysMatch()
  {
    && w.needle == a.Locate(b) && w.needle.Located? && w.offset == b % CHUNK_SIZE
    && IsStretch(a, b, |w.data|)
  }

  predicate IsStretch(a: Addressing, b: nat, len: nat) {
    b % CHUNK_SIZE + len <= CHUNK_SIZE && b % a.Chunk() + len <= a.Chunk()
  }

  ghost predicate InPlace(a: Addressing, w: Write)
    requires a.KeysMatch()
  {
    exists b: nat :: b < OFFSET_LIMIT && BeginsAt(a, w, b)
  }

  /** The requests deliver the bytes of the pages that can be located, all of them and nothing else. */
  ghost predicate Faithful(a: Addressing, writes: seq<Write>, pages: seq<Page>, lo: nat, hi: nat)
    requires a.KeysMatch() && lo <= hi <= |pages|
  {
    && (forall k :: 0 <= k < |writes| ==> InPlace(a, writes[k]))
    && (forall o: nat, v: int :: o < OFFSET_LIMIT ==>
      (Delivers(a, writes, o, v) <==> a.Locate(o).Located? && Holds(pages, lo, hi, o, v)))
  }

  // ------------------------------------------------------------ basic facts

  lemma PagesAreDisjoint(pages: seq<Page>, i: nat, j: nat, o: nat, v: int, w: int)
    requires IsBatch(pages) && i < |pages| && j < |pages|
    requires pages[i].Has(o, v) && pages[j].Has(o, w)
    ensures i == j && v == w
  {
  }

  /** A multiple of a page is at least a page away from the end of its chunk. */
  lemma PagesFit(o: nat, chunk: nat, page: nat)
    requires page > 0 && chunk > 0 && o % page == 0 && chunk % page == 0
    ensures o % chunk + page <= chunk
  {
    var q, m := o / page, chunk / page;
    assert o == q * page && chunk == m * page;
    assert m > 0;
    var t, r := q / m, q % m;
    assert q == t * m + r;
    assert o == t * chunk + r * page by {
      assert (t * m + r) * page == t * (m * page) + r * page;
    }
    MulMonotone(r, m - 1, page, page);
    assert (m - 1) * page == chunk - page;
    DivUnique(o, chunk, t, r * page);
  }

  lemma PageIsStretch(a: Addressing, pages: seq<Page>, i: nat)
    requires Suits(a.Chunk()) && IsBatch(pages) && i < |pages|
    ensures IsStretch(a, pages[i].offset, |pages[i].data|)
  {
    PagesFit(pages[i].offset, a.Chunk(), PAGE_SIZE);
  }

  /** Bytes of one chunk that go to the same place on the needle are the same byte of the file. */
  lemma SamePlace(b: nat, o: nat, chunk: nat, len: nat)
    requires 0 < chunk <= CHUNK_SIZE && b / chunk == o / chunk && b % chunk + len <= chunk
    requires b % CHUNK_SIZE <= o % CHUNK_SIZE < b % CHUNK_SIZE + len
    ensures o - b == o % CHUNK_SIZE - b % CHUNK_SIZE
  {
    var s := b / chunk * chunk;
    assert b == s + b % chunk && o == s + o % chunk;
    var i, j := b / CHUNK_SIZE, o / CHUNK_SIZE;
    assert b == CHUNK_SIZE * i + b % CHUNK_SIZE && o == CHUNK_SIZE * j + o % CHUNK_SIZE;
    assert i == j;
  }

  /** The bytes of a stretch are in the chunk and the mebibyte of its first one. */
  lemma StretchStays(b: nat, o: nat, chunk: nat, len: nat)
    requires chunk > 0 && b % chunk + len <= chunk && b % CHUNK_SIZE + len <= CHUNK_SIZE && b <= o < b + len
    ensures o / chunk == b / chunk && o % CHUNK_SIZE == b % CHUNK_SIZE + (o - b)
  {
    DivUnique(o, chunk, b / chunk, b % chunk + (o - b));
  }

  lemma SameNeedle(a: Addressing, o1: nat, o2: nat)
    requires IsAddressed(a) && o1 < OFFSET_LIMIT && o2 < OFFSET_LIMIT && a.Locate(o1).Located?
    ensures a.Locate(o1) == a.Locate(o2) <==> o1 / a.Chunk() == o2 / a.Chunk()
  {
  }

  /** A request for a stretch puts exactly the bytes of the stretch. */
  lemma StretchPuts(a: Addressing, b: nat, data: seq<int>, o: nat, v: int)
    requires IsAddressed(a) && b < OFFSET_LIMIT && o < OFFSET_LIMIT
    requires a.Locate(b).Located? && IsStretch(a, b, |data|)
    ensures Puts(a, Write(a.Locate(b), b % CHUNK_SIZE, data), o, v) <==> Page(b, data).Has(o, v)
  {
    SameNeedle(a, b, o);
    if b <= o < b + |data| {
      StretchStays(b, o, a.Chunk(), |data|);
    } else if a.Locate(b) == a.Locate(o) && b % CHUNK_SIZE <= o % CHUNK_SIZE < b % CHUNK_SIZE + |data| {
      SamePlace(b, o, a.Chunk(), |data|);
    }
  }

  /** A request for a stretch, if that is where the bytes of the pages are, is faithful. */
  lemma StretchIsFaithful(a: Addressing, pages: seq<Page>, lo: nat, hi: nat, b: nat, data: seq<int>)
    requires IsAddressed(a) && lo <= hi <= |pages| && b < OFFSET_LIMIT
    requires a.Locate(b).Located? && IsStretch(a, b, |data|)
    requires forall o: nat, v: int :: Page(b, data).Has(o, v) <==> Holds(pages, lo, hi, o, v)
    ensures Faithful(a, [Write(a.Locate(b), b % CHUNK_SIZE, data)], pages, lo, hi)
  {
    var w := Write(a.Locate(b), b % CHUNK_SIZE, data);
    assert BeginsAt(a, [w][0], b);
    forall o: nat, v: int | o < OFFSET_LIMIT
      ensures Delivers(a, [w], o, v) <==> a.Locate(o).Located? && Holds(pages, lo, hi, o, v)
    {
      assert Delivers(a, [w], o, v) <==> Puts(a, [w][0], o, v);
      StretchPuts(a, b, data, o, v);
      assert Page(b, data).Has(o, v) <==> Holds(pages, lo, hi, o, v);
    }
  }

  /** The page is ended in the first pass: it is empty or cannot be located. */
  predicate IsSkipped(a: Addressing, page: Page)
    requires a.KeysMatch()
  {
    page.data == [] || !a.Locate(page.offset).Located?
  }

  lemma SkippedIsUnlocated(a: Addressing, pages: seq<Page>, j: nat, o: nat, v: int)
    requires IsAddressed(a) && IsBatch(pages) && j < |pages| && IsSkipped(a, pages[j]) && pages[j].Has(o, v)
    ensures !a.Locate(o).Located?
  {
    PageIsStretch(a, pages, j);
    StretchStays(pages[j].offset, o, a.Chunk(), |pages[j].data|);
    if a.Locate(o).Located? { SameNeedle(a, o, pages[j].offset); }
  }

  lemma FaithfulNone(a: Addressing, pages: seq<Page>, lo: nat, hi: nat)
    requires IsAddressed(a) && IsBatch(pages) && lo <= hi <= |pages|
    requires forall j :: lo <= j < hi ==> IsSkipped(a, pages[j])
    ensures Faithful(a, [], pages, lo, hi)
  {
    forall o: nat, v: int | Holds(pages, lo, hi, o, v)
      ensures !a.Locate(o).Located?
    {
      var j :| lo <= j < hi && pages[j].Has(o, v);
      SkippedIsUnlocated(a, pages, j, o, v);
    }
  }

  lemma FaithfulJoin(a: Addressing, w1: seq<Write>, w2: seq<Write>, pages: seq<Page>, lo: nat, mid: nat, hi: nat)
    requires a.KeysMatch() && lo <= mid <= hi <= |pages|
    requires Faithful(a, w1, pages, lo, mid) && Faithful(a, w2, pages, mid, hi)
    ensures Faithful(a, w1 + w2, pages, lo, hi)
  {
    forall o: nat, v: int | o < OFFSET_LIMIT
      ensures Delivers(a, w1 + w2, o, v) <==> a.Locate(o).Located? && Holds(pages, lo, hi, o, v)
    {
      DeliversJoin(a, w1, w2, o, v);
      HoldsJoin(pages, lo, mid, hi, o, v);
    }
  }

  lemma DeliversJoin(a: Addressing, w1: seq<Write>, w2: seq<Write>, o: nat, v: int)
    requires a.KeysMatch()
    ensures Delivers(a, w1 + w2, o, v) <==> Delivers(a, w1, o, v) || Delivers(a, w2, o, v)
  {
    if Delivers(a, w1, o, v) {
      var k :| 0 <= k < |w1| && Puts(a, w1[k], o, v);
      assert (w1 + w2)[k] == w1[k];
    }
    if Delivers(a, w2, o, v) {
      var k :| 0 <= k < |w2| && Puts(a, w2[k], o, v);
      assert (w1 + w2)[|w1| + k] == w2[k];
    }
  }

  lemma HoldsJoin(pages: seq<Page>, lo: nat, mid: nat, hi: nat, o: nat, v: int)
    requires lo <= mid <= hi <= |pages|
    ensures Holds(pages, lo, hi, o, v) <==> Holds(pages, lo, mid, o, v) || Holds(pages, mid, hi, o, v)
  {
  }

  // ------------------------------------------------------------ whole-needle writes

  /** Every byte of the chunk at `start` lies in one of the pages. */
  ghost predicate CoversChunk(pages: seq<Page>, lo: nat, hi: nat, start: nat)
    requires lo <= hi <= |pages|
  {
    CoversUpTo(pages, lo, hi, start, start + CHUNK_SIZE)
  }

  ghost predicate CoversByte(pages: seq<Page>, lo: nat, hi: nat, o: nat)
    requires lo <= hi <= |pages|
  {
    exists j :: lo <= j < hi && pages[j].offset <= o < pages[j].offset + |pages[j].data|
  }

  ghost predicate Within(pages: seq<Page>, lo: nat, hi: nat, start: nat)
    requires lo <= hi <= |pages|
  {
    forall j :: lo <= j < hi && pages[j].data != [] ==>
      start <= pages[j].offset && pages[j].offset + |pages[j].data| <= start + CHUNK_SIZE
  }

  ghost predicate IsSorted(pages: seq<Page>, lo: nat, hi: nat)
    requires lo <= hi <= |pages|
  {
    forall i, j :: lo <= i < j < hi ==> pages[i].offset <= pages[j].offset
  }

  ghost predicate CoversUpTo(pages: seq<Page>, lo: nat, hi: nat, start: nat, end: nat)
    requires lo <= hi <= |pages|
  {
    forall o: nat :: start <= o < end ==> CoversByte(pages, lo, hi, o)
  }

  lemma CoversStep(pages: seq<Page>, lo: nat, i: nat, start: nat, covered: nat)
    requires lo <= i < |pages| && CoversUpTo(pages, lo, i, start, covered)
    ensures CoversUpTo(pages, lo, i + 1, start, covered)
    ensures pages[i].offset <= covered ==> CoversUpTo(pages, lo, i + 1, start, pages[i].offset + |pages[i].data|)
  {
    var n := i + 1;
    forall o: nat | start <= o < covered
      ensures CoversByte(pages, lo, n, o)
    {
      assert CoversByte(pages, lo, i, o);
    }
  }

  /** No page reaches beyond the covered part, and the rest start after it. */
  lemma GapRemains(pages: seq<Page>, lo: nat, i: nat, hi: nat, covered: nat)
    requires lo <= i <= hi <= |pages| && IsSorted(pages, lo, hi)
    requires forall j :: lo <= j < i ==> pages[j].data == [] || pages[j].offset + |pages[j].data| <= covered
    requires i < hi ==> pages[i].offset > covered
    ensures !CoversByte(pages, lo, hi, covered)
  {
  }

  /**
   * powerfs_wb_needle_full_coverage. A positive answer means the chunk is covered; for pages in
   * file order, as the page cache hands them out, it is given whenever the chunk is covered.
   */
  method FullCoverage(pages: seq<Page>, lo: nat, hi: nat, start: nat, maxLen: nat) returns (full: bool)
    requires lo <= hi <= |pages|
    ensures full ==> maxLen == CHUNK_SIZE && Within(pages, lo, hi, start) && CoversChunk(pages, lo, hi, start)
    ensures maxLen == CHUNK_SIZE && IsSorted(pages, lo, hi) && Within(pages, lo, hi, start) ==>
      (full <==> CoversChunk(pages, lo, hi, start))
  {
    if maxLen != CHUNK_SIZE {
      return false;
    }
    var covered, end := start, start + maxLen;
    for i := lo to hi
      invariant start <= covered <= end && Within(pages, lo, i, start) && CoversUpTo(pages, lo, i, start, covered)
      invariant forall j :: lo <= j < i ==> pages[j].data == [] || pages[j].offset + |pages[j].data| <= covered
    {
      var offset, count := pages[i].offset, |pages[i].data|;
      CoversStep(pages, lo, i, start, covered);
      if count != 0 {
        if offset < start || offset + count > end {
          return false;
        }
        if offset > covered {
          if IsSorted(pages, lo, hi) { GapRemains(pages, lo, i, hi, covered); }
          return false;
        }
        if offset + count > covered {
          covered := offset + count;
        }
      }
    }
    if covered < end && IsSorted(pages, lo, hi) {
      GapRemains(pages, lo, hi, hi, covered);
    }
    return covered >= end;
  }

  /** Copy the pages of a covered chunk into one buffer. */
  method FillNeedle(pages: seq<Page>, lo: nat, hi: nat, start: nat) returns (buf: array<int>)
    requires IsBatch(pages) && lo <= hi <= |pages| && start % CHUNK_SIZE == 0
    requires Within(pages, lo, hi, start) && CoversChunk(pages, lo, hi, start)
    ensures fresh(buf) && buf.Length == CHUNK_SIZE
    ensures forall i :: 0 <= i < CHUNK_SIZE ==> Holds(pages, lo, hi, start + i, buf[i])
  {
    buf := new int[CHUNK_SIZE](_ => 0);
    for j := lo to hi
      invariant forall i :: 0 <= i < CHUNK_SIZE && CoversByte(pages, lo, j, start + i) ==>
        Holds(pages, lo, j, start + i, buf[i])
    {
      ghost var before := buf[..];
      if |pages[j].data| != 0 {
        var at := pages[j].offset % CHUNK_SIZE;
        assert at == pages[j].offset - start;
        forall k | 0 <= k < |pages[j].data| {
          buf[at + k] := pages[j].data[k];
        }
      }
      forall i | 0 <= i < CHUNK_SIZE && CoversByte(pages, lo, j + 1, start + i)
        ensures Holds(pages, lo, j + 1, start + i, buf[i])
      {
        if pages[j].offset <= start + i < pages[j].offset + |pages[j].data| {
          assert pages[j].Has(start + i, buf[i]);
        } else {
          assert CoversByte(pages, lo, j, start + i) && buf[i] == before[i];
        }
      }
    }
  }

  lemma DirectIsFaithful(a: Addressing, pages: seq<Page>, lo: nat, hi: nat, start: nat, data: seq<int>)
    requires IsAddressed(a) && IsBatch(pages) && lo <= hi <= |pages| && Within(pages, lo, hi, start)
    requires a.Chunk() == CHUNK_SIZE && start % CHUNK_SIZE == 0 && start < OFFSET_LIMIT && a.Locate(start).Located?
    requires |data| == CHUNK_SIZE && forall i :: 0 <= i < CHUNK_SIZE ==> Holds(pages, lo, hi, start + i, data[i])
    ensures Faithful(a, [Write(a.Locate(start), 0, data)], pages, lo, hi)
  {
    forall o: nat, v: int
      ensures Page(start, data).Has(o, v) <==> Holds(pages, lo, hi, o, v)
    {
      ChunkHas(pages, lo, hi, start, data, o, v);
    }
    StretchIsFaithful(a, pages, lo, hi, start, data);
  }

  /** A group on one needle can only cover a mebibyte if that is the chunk size. */
  lemma CoveredIsWhole(a: Addressing, pages: seq<Page>, lo: nat, hi: nat, needle: Location, start: nat)
    requires IsAddressed(a) && IsBatch(pages) && lo <= hi <= |pages| && OnNeedle(a, pages, lo, hi, needle)
    requires needle.Located? && Within(pages, lo, hi, start) && CoversChunk(pages, lo, hi, start)
    ensures a.Chunk() == CHUNK_SIZE && start < OFFSET_LIMIT && a.Locate(start) == needle
  {
    var end := start + CHUNK_SIZE - 1;
    assert CoversByte(pages, lo, hi, start) && CoversByte(pages, lo, hi, end);
    var i :| lo <= i < hi && pages[i].offset <= start < pages[i].offset + |pages[i].data|;
    var j :| lo <= j < hi && pages[j].offset <= end < pages[j].offset + |pages[j].data|;
    assert pages[i].offset == start;
    SameNeedle(a, start, pages[j].offset);
    PageIsStretch(a, pages, j);
    StretchStays(pages[j].offset, end, a.Chunk(), |pages[j].data|);
    NotApart(start, end, a.Chunk());
  }

  lemma NotApart(x: nat, y: nat, chunk: nat)
    requires chunk > 0 && x / chunk == y / chunk
    ensures y - x < chunk
  {
    assert x == x / chunk * chunk + x % chunk && y == x / chunk * chunk + y % chunk;
  }

  lemma ChunkHas(pages: seq<Page>, lo: nat, hi: nat, start: nat, data: seq<int>, o: nat, v: int)
    requires IsBatch(pages) && lo <= hi <= |pages| && Within(pages, lo, hi, start)
    requires |data| == CHUNK_SIZE && forall i :: 0 <= i < CHUNK_SIZE ==> Holds(pages, lo, hi, start + i, data[i])
    ensures Page(start, data).Has(o, v) <==> Holds(pages, lo, hi, o, v)
  {
    if start <= o < start + CHUNK_SIZE {
      assert Holds(pages, lo, hi, start + (o - start), data[o - start]);
      if Holds(pages, lo, hi, o, v) {
        HoldsOneIn(pages, lo, hi, o, v, data[o - start]);
      }
    }
  }

  lemma HoldsOneIn(pages: seq<Page>, lo: nat, hi: nat, o: nat, v: int, w: int)
    requires IsBatch(pages) && lo <= hi <= |pages| && Holds(pages, lo, hi, o, v) && Holds(pages, lo, hi, o, w)
    ensures v == w
  {
    var i :| lo <= i < hi && pages[i].Has(o, v);
    var j :| lo <= j < hi && pages[j].Has(o, w);
    PagesAreDisjoint(pages, i, j, o, v, w);
  }

  // ------------------------------------------------------------ extents

  /** Each page begins where the one before it ends. */
  ghost predicate Contiguous(pages: seq<Page>, s: nat, e: nat)
    requires s <= e <= |pages|
  {
    && (forall j :: s <= j < e ==> pages[j].data != [])
    && (forall j :: s < j < e ==> pages[j].offset == pages[j - 1].offset + |pages[j - 1].data|)
  }

  ghost function Joined(pages: seq<Page>, s: nat, e: nat): (d: seq<int>)
    requires s <= e <= |pages|
  {
    if s == e then [] else Joined(pages, s, e - 1) + pages[e - 1].data
  }

  lemma {:induction false} JoinedEnd(pages: seq<Page>, s: nat, e: nat)
    requires s < e <= |pages| && Contiguous(pages, s, e)
    ensures pages[s].offset + |Joined(pages, s, e)| == pages[e - 1].offset + |pages[e - 1].data|
  {
    if s + 1 < e {
      JoinedEnd(pages, s, e - 1);
    }
  }

  lemma ConcatHas(b: nat, d1: seq<int>, d2: seq<int>, o: nat, v: int)
    ensures Page(b, d1 + d2).Has(o, v) <==> Page(b, d1).Has(o, v) || Page(b + |d1|, d2).Has(o, v)
  {
  }

  /** The joined bytes are the bytes of the pages. */
  lemma {:induction false} JoinedHas(pages: seq<Page>, s: nat, e: nat, o: nat, v: int)
    requires s < e <= |pages| && Contiguous(pages, s, e)
    ensures Page(pages[s].offset, Joined(pages, s, e)).Has(o, v) <==> Holds(pages, s, e, o, v)
  {
    var b, last := pages[s].offset, pages[e - 1];
    if s + 1 == e {
      assert Joined(pages, s, e) == last.data;
      HoldsLast(pages, s, e, o, v);
    } else {
      var front := Joined(pages, s, e - 1);
      JoinedHas(pages, s, e - 1, o, v);
      JoinedEnd(pages, s, e - 1);
      ConcatHas(b, front, last.data, o, v);
      assert Page(b + |front|, last.data) == last;
      HoldsLast(pages, s, e, o, v);
    }
  }

  lemma HoldsLast(pages: seq<Page>, s: nat, e: nat, o: nat, v: int)
    requires s < e <= |pages|
    ensures Holds(pages, s, e, o, v) <==> Holds(pages, s, e - 1, o, v) || pages[e - 1].Has(o, v)
  {
  }

  /** Pages of a batch that share a chunk share a mebibyte. */
  lemma SameMebibyte(a: Addressing, pages: seq<Page>, i: nat, j: nat)
    requires IsCut(a, pages) && i < |pages| && j < |pages|
    requires pages[i].offset / a.Chunk() == pages[j].offset / a.Chunk()
    ensures pages[i].offset / CHUNK_SIZE == pages[j].offset / CHUNK_SIZE
  {
    if CHUNK_SIZE % a.Chunk() == 0 {
      var c, m := a.Chunk(), CHUNK_SIZE / a.Chunk();
      assert c * m == CHUNK_SIZE;
      assert m > 0;
      DivDiv(pages[i].offset, c, m);
      DivDiv(pages[j].offset, c, m);
    }
  }

  /** From the first page of an extent to the end of its last one is a stretch. */
  lemma ExtentIsStretch(a: Addressing, pages: seq<Page>, s: nat, e: nat)
    requires Suits(a.Chunk()) && IsBatch(pages) && IsCut(a, pages) && s < e <= |pages| && Contiguous(pages, s, e)
    requires pages[s].offset / a.Chunk() == pages[e - 1].offset / a.Chunk()
    ensures IsStretch(a, pages[s].offset, |Joined(pages, s, e)|)
  {
    PageIsStretch(a, pages, e - 1);
    SameMebibyte(a, pages, s, e - 1);
    StretchGrows(a, pages, s, e);
  }

  lemma StretchGrows(a: Addressing, pages: seq<Page>, s: nat, e: nat)
    requires s < e <= |pages| && Contiguous(pages, s, e)
    requires IsStretch(a, pages[e - 1].offset, |pages[e - 1].data|)
    requires pages[s].offset / a.Chunk() == pages[e - 1].offset / a.Chunk()
    requires pages[s].offset / CHUNK_SIZE == pages[e - 1].offset / CHUNK_SIZE
    ensures IsStretch(a, pages[s].offset, |Joined(pages, s, e)|)
  {
    var b, last := pages[s].offset, pages[e - 1];
    JoinedEnd(pages, s, e);
    SameEnd(b, |Joined(pages, s, e)|, last.offset, |last.data|, a.Chunk());
    SameEnd(b, |Joined(pages, s, e)|, last.offset, |last.data|, CHUNK_SIZE);
  }

  lemma SameEnd(b: nat, len: nat, last: nat, lastLen: nat, chunk: nat)
    requires chunk > 0 && b / chunk == last / chunk && b + len == last + lastLen && last % chunk + lastLen <= chunk
    ensures b % chunk + len <= chunk
  {
    var s := b / chunk * chunk;
    assert b == s + b % chunk && last == s + last % chunk;
  }

  lemma ExtentIsFaithful(a: Addressing, pages: seq<Page>, s: nat, e: nat)
    requires IsAddressed(a) && IsBatch(pages) && IsCut(a, pages) && s < e <= |pages| && Contiguous(pages, s, e)
    requires a.Locate(pages[s].offset) == a.Locate(pages[e - 1].offset) && a.Locate(pages[s].offset).Located?
    ensures Faithful(
      a, [Write(a.Locate(pages[s].offset), pages[s].offset % CHUNK_SIZE, Joined(pages, s, e))], pages, s, e)
  {
    SameNeedle(a, pages[s].offset, pages[e - 1].offset);
    ExtentIsStretch(a, pages, s, e);
    forall o: nat, v: int
      ensures Page(pages[s].offset, Joined(pages, s, e)).Has(o, v) <==> Holds(pages, s, e, o, v)
    {
      JoinedHas(pages, s, e, o, v);
    }
    StretchIsFaithful(a, pages, s, e, pages[s].offset, Joined(pages, s, e));
  }

  // ------------------------------------------------------------ which request carries which pages

  type Extent = WbProtocol.Extent

  /** The requests of one group: apart, in order, together holding all of its nonempty pages. */
  ghost predicate IsGroup(pages: seq<Page>, group: seq<Extent>, lo: nat, hi: nat)
    requires lo <= hi <= |pages|
  {
    && (forall k :: 0 <= k < |group| ==> lo <= group[k].lo < group[k].hi <= hi)
    && (forall k, l :: 0 <= k < l < |group| ==> group[k].hi <= group[l].lo)
    && (forall p :: lo <= p < hi && pages[p].data != [] ==> InSome(group, p))
  }

  ghost predicate InSome(group: seq<Extent>, p: nat) {
    exists k :: 0 <= k < |group| && group[k].lo <= p < group[k].hi
  }

  /** First and last request are marked, and no others. */
  ghost predicate IsMarked(group: seq<Extent>) {
    && group != []
    && (forall k :: 0 <= k < |group| ==> (group[k].first <==> k == 0) && (group[k].last <==> k == |group| - 1))
    && (forall k :: 0 <= k < |group| && group[k].direct ==> |group| == 1)
  }

  /** Request k carries exactly the bytes of the pages of extent k. */
  ghost predicate Carries(a: Addressing, writes: seq<Write>, plan: seq<Extent>, pages: seq<Page>)
    requires a.KeysMatch()
  {
    |writes| == |plan| && forall k :: 0 <= k < |plan| ==>
      plan[k].lo <= plan[k].hi <= |pages| && Faithful(a, [writes[k]], pages, plan[k].lo, plan[k].hi)
  }

  ghost function Mark(group: seq<Extent>): (m: seq<Extent>)
    ensures |m| == |group|
  {
    seq(|group|, k requires 0 <= k < |group| => group[k].(first := k == 0, last := k == |group| - 1))
  }

  lemma MarkKeeps(pages: seq<Page>, group: seq<Extent>, lo: nat, hi: nat)
    requires lo <= hi <= |pages| && IsGroup(pages, group, lo, hi)
    requires group != [] && forall k :: 0 <= k < |group| ==> !group[k].direct
    ensures IsGroup(pages, Mark(group), lo, hi) && IsMarked(Mark(group))
  {
    forall p | lo <= p < hi && pages[p].data != []
      ensures InSome(Mark(group), p)
    {
      assert InSome(group, p);
      var k :| 0 <= k < |group| && group[k].lo <= p < group[k].hi;
      assert Mark(group)[k].lo <= p < Mark(group)[k].hi;
    }
  }

  lemma MarkCarries(a: Addressing, pages: seq<Page>, writes: seq<Write>, group: seq<Extent>)
    requires a.KeysMatch() && Carries(a, writes, group, pages)
    ensures Carries(a, writes, Mark(group), pages)
  {
  }

  /** One more request, and the empty pages up to its start. */
  lemma GroupGrows(pages: seq<Page>, group: seq<Extent>, lo: nat, mid: nat, x: Extent)
    requires lo <= mid <= x.lo < x.hi <= |pages| && IsGroup(pages, group, lo, mid)
    requires forall p :: mid <= p < x.lo ==> pages[p].data == []
    ensures IsGroup(pages, group + [x], lo, x.hi)
  {
    forall p | lo <= p < x.hi && pages[p].data != []
      ensures InSome(group + [x], p)
    {
      if p < mid {
        assert InSome(group, p);
        var k :| 0 <= k < |group| && group[k].lo <= p < group[k].hi;
        assert (group + [x])[k] == group[k];
      } else {
        assert (group + [x])[|group|] == x;
      }
    }
  }

  lemma GroupSkips(pages: seq<Page>, group: seq<Extent>, lo: nat, mid: nat)
    requires lo <= mid < |pages| && IsGroup(pages, group, lo, mid) && pages[mid].data == []
    ensures IsGroup(pages, group, lo, mid + 1)
  {
  }

  /** The plan of the groups from page `first` on; each group follows the one before it. */
  ghost predicate IsPlan(pages: seq<Page>, plan: seq<Extent>, first: nat, hi: nat)
    requires first <= hi <= |pages|
  {
    IsGroup(pages, plan, first, hi) && WbProtocol.Batch([], plan).Marked()
  }

  lemma PlanGrows(pages: seq<Page>, plan: seq<Extent>, group: seq<Extent>, first: nat, mid: nat, hi: nat)
    requires first <= mid <= hi <= |pages| && IsPlan(pages, plan, first, mid)
    requires IsGroup(pages, group, mid, hi) && IsMarked(group)
    ensures IsPlan(pages, plan + group, first, hi)
  {
    var all := plan + group;
    forall p | first <= p < hi && pages[p].data != []
      ensures InSome(all, p)
    {
      if p < mid {
        assert InSome(plan, p);
        var k :| 0 <= k < |plan| && plan[k].lo <= p < plan[k].hi;
        assert all[k] == plan[k];
      } else {
        assert InSome(group, p);
        var k :| 0 <= k < |group| && group[k].lo <= p < group[k].hi;
        assert all[|plan| + k] == group[k];
      }
    }
    PlanMarks(plan, group);
  }

  lemma PlanMarks(plan: seq<Extent>, group: seq<Extent>)
    requires WbProtocol.Batch([], plan).Marked() && IsMarked(group)
    ensures WbProtocol.Batch([], plan + group).Marked()
  {
  }

  lemma CarriesJoin(a: Addressing, w1: seq<Write>, p1: seq<Extent>, w2: seq<Write>, p2: seq<Extent>, pages: seq<Page>)
    requires a.KeysMatch() && Carries(a, w1, p1, pages) && Carries(a, w2, p2, pages)
    ensures Carries(a, w1 + w2, p1 + p2, pages)
  {
  }

  function SkipFlags(a: Addressing, pages: seq<Page>): (e: seq<bool>)
    requires a.KeysMatch()
    ensures |e| == |pages| && forall i :: 0 <= i < |pages| ==> (e[i] <==> IsSkipped(a, pages[i]))
  {
    seq(|pages|, i requires 0 <= i < |pages| => IsSkipped(a, pages[i]))
  }

  /** No page that cannot be located comes after one that can. */
  ghost predicate IsUnmixed(a: Addressing, pages: seq<Page>)
    requires a.KeysMatch()
  {
    forall i, j :: 0 <= i < j < |pages| && !IsSkipped(a, pages[i]) && pages[j].data != [] ==> !IsSkipped(a, pages[j])
  }

  /** A page that cannot be located and that a request carries all the same. */
  ghost predicate IsCaught(a: Addressing, pages: seq<Page>, plan: seq<Extent>, p: nat)
    requires a.KeysMatch() && p < |pages|
  {
    pages[p].data != [] && IsSkipped(a, pages[p]) && InSome(plan, p)
  }

  /** The plan of a batch is one that the completion protocol can run. */
  lemma PlanIsValid(a: Addressing, pages: seq<Page>, plan: seq<Extent>, first: nat)
    requires a.KeysMatch() && first <= |pages| && IsPlan(pages, plan, first, |pages|)
    requires forall p :: 0 <= p < first ==> IsSkipped(a, pages[p])
    ensures WbProtocol.Batch(SkipFlags(a, pages), plan).Valid()
  {
    var b := WbProtocol.Batch(SkipFlags(a, pages), plan);
    forall p | 0 <= p < |b.empty| && !b.empty[p]
      ensures exists k :: 0 <= k < |plan| && plan[k].lo <= p < plan[k].hi
    {
      assert InSome(plan, p);
    }
  }

  /** The first page that can be located decides which pages the requests carry. */
  lemma CaughtIfMixed(a: Addressing, pages: seq<Page>, plan: seq<Extent>, first: nat)
    requires a.KeysMatch() && first <= |pages| && IsPlan(pages, plan, first, |pages|)
    requires forall p :: 0 <= p < first ==> IsSkipped(a, pages[p])
    requires first < |pages| ==> !IsSkipped(a, pages[first])
    ensures (forall p: nat :: p < |pages| ==> !IsCaught(a, pages, plan, p)) <==> IsUnmixed(a, pages)
  {
    if i, j :| 0 <= i < j < |pages| && !IsSkipped(a, pages[i]) && pages[j].data != [] && IsSkipped(a, pages[j]) {
      assert InSome(plan, j);
      assert IsCaught(a, pages, plan, j);
    } else {
      forall p: nat | p < |pages|
        ensures !IsCaught(a, pages, plan, p)
      {
        assert InSome(plan, p) ==> first <= p;
      }
    }
  }

  /** All nonempty pages of the group lie on the needle. */
  ghost predicate OnNeedle(a: Addressing, pages: seq<Page>, lo: nat, hi: nat, needle: Location)
    requires a.KeysMatch() && lo <= hi <= |pages|
  {
    forall j :: lo <= j < hi && pages[j].data != [] ==> a.Locate(pages[j].offset) == needle
  }

  /** The maximal run of contiguous pages from s on, and its bytes. */
  method NextExtent(pages: seq<Page>, s: nat, hi: nat) returns (e: nat, data: seq<int>)
    requires s < hi <= |pages| && pages[s].data != []
    ensures s < e <= hi && Contiguous(pages, s, e) && data == Joined(pages, s, e)
    ensures e < hi && pages[e].data != [] ==> pages[e].offset != pages[e - 1].offset + |pages[e - 1].data|
  {
    e := s + 1;
    while e < hi && pages[e].data != [] && pages[e].offset == pages[e - 1].offset + |pages[e - 1].data|
      invariant s < e <= hi && Contiguous(pages, s, e)
    {
      e := e + 1;
    }
    data := [];
    for j := s to e
      invariant data == Joined(pages, s, j)
    {
      data := data + pages[j].data;
    }
  }

  /** What a group of pages on one needle is to become. */
  ghost predicate IsSent(a: Addressing, pages: seq<Page>, writes: seq<Write>, group: seq<Extent>, lo: nat, hi: nat)
    requires a.KeysMatch() && lo <= hi <= |pages|
  {
    Faithful(a, writes, pages, lo, hi) && Carries(a, writes, group, pages)
  }

  /** powerfs_wb_submit_blob_extents, with every submission accepted. */
  method SubmitExtents(a: Addressing, pages: seq<Page>, lo: nat, hi: nat, needle: Location)
    returns (writes: seq<Write>, ghost group: seq<Extent>)
    requires IsAddressed(a) && IsBatch(pages) && IsCut(a, pages) && lo < hi <= |pages| && needle.Located?
    requires pages[lo].data != []
    ensures IsGroup(pages, group, lo, hi) && IsMarked(group)
    ensures OnNeedle(a, pages, lo, hi, needle) ==> IsSent(a, pages, writes, group, lo, hi)
  {
    writes, group := [], [];
    var i := lo;
    FaithfulNone(a, pages, lo, lo);
    while i < hi
      invariant lo <= i <= hi && IsGathered(a, pages, writes, group, lo, hi, i, needle) && (i > lo ==> group != [])
    {
      if pages[i].data == [] {
        GatherSkip(a, pages, writes, group, lo, hi, i, needle);
        i := i + 1;
      } else {
        var e, data := NextExtent(pages, i, hi);
        GatherExtent(a, pages, writes, group, lo, hi, i, e, needle);
        writes := writes + [Write(needle, pages[i].offset % CHUNK_SIZE, data)];
        group := group + [WbProtocol.Extent(i, e, false, false, false)];
        i := e;
      }
    }
    MarkKeeps(pages, group, lo, hi);
    if OnNeedle(a, pages, lo, hi, needle) { MarkCarries(a, pages, writes, group); }
    group := Mark(group);
  }

  /** The extents of the pages from lo up to i, not yet marked. */
  ghost predicate IsGathered(
    a: Addressing, pages: seq<Page>, writes: seq<Write>, group: seq<Extent>, lo: nat, hi: nat, i: nat, needle: Location)
    requires a.KeysMatch() && lo <= i <= hi <= |pages|
  {
    && IsGroup(pages, group, lo, i) && (forall k :: 0 <= k < |group| ==> !group[k].direct)
    && (OnNeedle(a, pages, lo, hi, needle) ==> IsSent(a, pages, writes, group, lo, i))
  }

  lemma GatherSkip(
    a: Addressing, pages: seq<Page>, writes: seq<Write>, group: seq<Extent>, lo: nat, hi: nat, i: nat, needle: Location)
    requires IsAddressed(a) && IsBatch(pages) && lo <= i < hi <= |pages| && pages[i].data == []
    requires IsGathered(a, pages, writes, group, lo, hi, i, needle)
    ensures IsGathered(a, pages, writes, group, lo, hi, i + 1, needle)
  {
    GroupSkips(pages, group, lo, i);
    if OnNeedle(a, pages, lo, hi, needle) { SendSkip(a, pages, writes, group, lo, i); }
  }

  lemma GatherExtent(
    a: Addressing, pages: seq<Page>, writes: seq<Write>, group: seq<Extent>, lo: nat, hi: nat, i: nat, e: nat,
    needle: Location)
    requires IsAddressed(a) && IsBatch(pages) && IsCut(a, pages) && lo <= i < e <= hi <= |pages| && needle.Located?
    requires IsGathered(a, pages, writes, group, lo, hi, i, needle) && Contiguous(pages, i, e)
    ensures IsGathered(a, pages, writes + [Write(needle, pages[i].offset % CHUNK_SIZE, Joined(pages, i, e))],
                       group + [WbProtocol.Extent(i, e, false, false, false)], lo, hi, e, needle)
  {
    GroupGrows(pages, group, lo, i, WbProtocol.Extent(i, e, false, false, false));
    if OnNeedle(a, pages, lo, hi, needle) { SendExtent(a, pages, writes, group, lo, i, e, needle); }
  }

  lemma SendSkip(a: Addressing, pages: seq<Page>, writes: seq<Write>, group: seq<Extent>, lo: nat, i: nat)
    requires IsAddressed(a) && IsBatch(pages) && lo <= i < |pages|
    requires IsSent(a, pages, writes, group, lo, i) && pages[i].data == []
    ensures IsSent(a, pages, writes, group, lo, i + 1)
  {
    FaithfulNone(a, pages, i, i + 1);
    FaithfulJoin(a, writes, [], pages, lo, i, i + 1);
    assert writes + [] == writes;
  }

  lemma SendExtent(
    a: Addressing, pages: seq<Page>, writes: seq<Write>, group: seq<Extent>, lo: nat, i: nat, e: nat, needle: Location)
    requires IsAddressed(a) && IsBatch(pages) && IsCut(a, pages) && lo <= i < e <= |pages|
    requires IsSent(a, pages, writes, group, lo, i) && Contiguous(pages, i, e) && needle.Located?
    requires a.Locate(pages[i].offset) == a.Locate(pages[e - 1].offset) == needle
    ensures IsSent(a, pages, writes + [Write(needle, pages[i].offset % CHUNK_SIZE, Joined(pages, i, e))],
                   group + [WbProtocol.Extent(i, e, false, false, false)], lo, e)
  {
    var w := Write(needle, pages[i].offset % CHUNK_SIZE, Joined(pages, i, e));
    ExtentIsFaithful(a, pages, i, e);
    FaithfulJoin(a, writes, [w], pages, lo, i, e);
    CarriesJoin(a, writes, group, [w], [WbProtocol.Extent(i, e, false, false, false)], pages);
  }

  // ------------------------------------------------------------ the worker

  /** The needle length that the file size allows, as a 32-bit number. */
  function MaxNeedleLen(fileSize: int, start: nat): nat {
    (if fileSize - start < CHUNK_SIZE then fileSize - start else CHUNK_SIZE) % U32
  }

  /** Send one group of pages, whatever the file size is at that moment. */
  method SubmitGroup(a: Addressing, pages: seq<Page>, lo: nat, hi: nat, needle: Location, fileSize: int)
    returns (writes: seq<Write>, ghost group: seq<Extent>)
    requires IsAddressed(a) && IsBatch(pages) && IsCut(a, pages) && lo < hi <= |pages| && needle.Located?
    requires pages[lo].data != []
    ensures IsGroup(pages, group, lo, hi) && IsMarked(group)
    ensures OnNeedle(a, pages, lo, hi, needle) ==> IsSent(a, pages, writes, group, lo, hi)
  {
    var offset := pages[lo].offset;
    var start := offset - offset % CHUNK_SIZE;
    var full := FullCoverage(pages, lo, hi, start, MaxNeedleLen(fileSize, start));
    if full {
      var buf := FillNeedle(pages, lo, hi, start);
      writes := [Write(needle, 0, buf[..])];
      group := WholeGroup(pages, lo, hi);
      if OnNeedle(a, pages, lo, hi, needle) {
        CoveredIsWhole(a, pages, lo, hi, needle, start);
        DirectIsFaithful(a, pages, lo, hi, start, buf[..]);
      }
    } else {
      writes, group := SubmitExtents(a, pages, lo, hi, needle);
    }
  }

  lemma WholeGroup(pages: seq<Page>, lo: nat, hi: nat) returns (group: seq<Extent>)
    requires lo < hi <= |pages|
    ensures group == [WbProtocol.Extent(lo, hi, true, true, true)] && IsGroup(pages, group, lo, hi) && IsMarked(group)
  {
    group := [WbProtocol.Extent(lo, hi, true, true, true)];
    forall p | lo <= p < hi
      ensures InSome(group, p)
    {
      assert group[0].lo <= p < group[0].hi;
    }
  }

  /**
   * The second pass of powerfs_writepage_work_fn; the file size may differ at every group. Pages that
   * cannot be located are passed over, but a group reaches up to the next page on another needle. So
   * requests leave those pages out exactly when none of them comes after one that can be located, and
   * then they deliver the bytes of the others, each those of its own extent.
   */
  method SubmitBatch(a: Addressing, pages: seq<Page>, fileSize: nat -> int)
    returns (writes: seq<Write>, ghost plan: seq<Extent>)
    requires IsAddressed(a) && IsBatch(pages) && IsCut(a, pages)
    ensures (forall p: nat :: p < |pages| ==> !IsCaught(a, pages, plan, p)) <==> IsUnmixed(a, pages)
    ensures IsUnmixed(a, pages) ==> Faithful(a, writes, pages, 0, |pages|) && Carries(a, writes, plan, pages)
    ensures IsUnmixed(a, pages) ==> WbProtocol.Batch(SkipFlags(a, pages), plan).Valid()
  {
    writes, plan := [], [];
    var cur := -1;
    var needle := NotLocated;
    ghost var first: nat := |pages|;
    for i := 0 to |pages|
      invariant -1 <= cur < i
      invariant cur < 0 ==> writes == [] && plan == [] && first == |pages|
      invariant cur < 0 ==> forall j :: 0 <= j < i ==> IsSkipped(a, pages[j])
      invariant cur >= 0 ==> IsOpen(a, pages, writes, plan, first, cur, i, needle)
    {
      var loc := a.Locate(pages[i].offset);
      if pages[i].data != [] && loc.Located? && cur < 0 {
        OpensAt(a, pages, i);
        cur, needle, first := i, loc, i;
      } else if pages[i].data != [] && loc.Located? && loc != needle {
        writes, plan := SubmitNext(a, pages, writes, plan, first, cur, i, needle, fileSize(i));
        cur, needle := i, loc;
        assert IsOpen(a, pages, writes, plan, first, cur, i + 1, needle);
      } else if cur >= 0 {
        StaysOpen(a, pages, writes, plan, first, cur, i, needle);
      }
    }
    if cur >= 0 {
      writes, plan := SubmitNext(a, pages, writes, plan, first, cur, |pages|, needle, fileSize(|pages|));
    } else {
      FaithfulNone(a, pages, 0, |pages|);
    }
    CaughtIfMixed(a, pages, plan, first);
    PlanIsValid(a, pages, plan, first);
  }

  /** A group is open that begins at page cur; the groups before it have been sent. */
  ghost predicate IsOpen(
    a: Addressing, pages: seq<Page>, writes: seq<Write>, plan: seq<Extent>, first: nat, cur: nat, i: nat,
    needle: Location)
    requires a.KeysMatch() && i <= |pages|
  {
    && first <= cur < i && IsStarted(a, pages, first) && pages[cur].data != [] && needle.Located?
    && IsPlan(pages, plan, first, cur)
    && (IsUnmixed(a, pages) ==> OnNeedle(a, pages, cur, i, needle) && IsSent(a, pages, writes, plan, 0, cur))
  }

  lemma OpensAt(a: Addressing, pages: seq<Page>, i: nat)
    requires IsAddressed(a) && IsBatch(pages) && i < |pages| && IsStarted(a, pages, i)
    ensures IsOpen(a, pages, [], [], i, i, i + 1, a.Locate(pages[i].offset))
  {
    FaithfulNone(a, pages, 0, i);
  }

  lemma StaysOpen(
    a: Addressing, pages: seq<Page>, writes: seq<Write>, plan: seq<Extent>, first: nat, cur: nat, i: nat,
    needle: Location)
    requires a.KeysMatch() && i < |pages| && IsOpen(a, pages, writes, plan, first, cur, i, needle)
    requires IsSkipped(a, pages[i]) || a.Locate(pages[i].offset) == needle
    ensures IsOpen(a, pages, writes, plan, first, cur, i + 1, needle)
  {
  }

  /** The first page that is not passed over. */
  ghost predicate IsStarted(a: Addressing, pages: seq<Page>, first: nat)
    requires a.KeysMatch() && first < |pages|
  {
    !IsSkipped(a, pages[first]) && forall p :: 0 <= p < first ==> IsSkipped(a, pages[p])
  }

  method SubmitNext(
    a: Addressing, pages: seq<Page>, before: seq<Write>, ghost planned: seq<Extent>, ghost first: nat, lo: nat, hi: nat,
    needle: Location, fileSize: int)
    returns (writes: seq<Write>, ghost plan: seq<Extent>)
    requires IsAddressed(a) && IsBatch(pages) && IsCut(a, pages) && first <= lo < hi <= |pages| && needle.Located?
    requires pages[lo].data != [] && IsPlan(pages, planned, first, lo)
    ensures IsPlan(pages, plan, first, hi)
    ensures OnNeedle(a, pages, lo, hi, needle) && IsSent(a, pages, before, planned, 0, lo) ==>
      IsSent(a, pages, writes, plan, 0, hi)
  {
    ghost var group;
    writes, group := SubmitGroup(a, pages, lo, hi, needle, fileSize);
    if OnNeedle(a, pages, lo, hi, needle) && IsSent(a, pages, before, planned, 0, lo) {
      FaithfulJoin(a, before, writes, pages, 0, lo, hi);
      CarriesJoin(a, before, planned, writes, group, pages);
    }
    PlanGrows(pages, planned, group, first, lo, hi);
    writes, plan := before + writes, planned + group;
  }

  // ------------------------------------------------------------ pages that cannot be located

  const HALF: nat := 0x8_0000

  /** A flat file with chunks of half a mebibyte, of which only the first is in its table. */
  function HalfLocated(): Addressing {
    Addressing(FLAT, HALF, 0, 0, [ChunkMap(0, 7, 9, HALF)], [], None, 0, 0)
  }

  lemma HalfIsAddressed()
    ensures IsAddressed(HalfLocated()) && forall o: nat :: HalfLocated().Locate(o).Located? <==> o < HALF
  {
  }

  /** A page of the second chunk, which cannot be located, is carried by the request for the first one. */
  method MixedBatch() returns (writes: seq<Write>, ghost plan: seq<Extent>)
    ensures IsCaught(HalfLocated(), [Page(0, [1]), Page(HALF, [2])], plan, 1)
  {
    var a, pages := HalfLocated(), [Page(0, [1]), Page(HALF, [2])];
    HalfIsAddressed();
    writes, plan := SubmitBatch(a, pages, _ => CHUNK_SIZE);
    assert !IsSkipped(a, pages[0]) && IsSkipped(a, pages[1]);
    assert !IsCaught(a, pages, plan, 0);
  }

  // ------------------------------------------------------------ other chunk sizes

  /** The request for a single page delivers its bytes and nothing else. */
  ghost predicate PageArrives(a: Addressing, page: Page)
    requires a.KeysMatch()
  {
    Faithful(a, [Write(a.Locate(page.offset), page.offset % CHUNK_SIZE, page.data)], [page], 0, 1)
  }

  lemma OneHas(page: Page, o: nat, v: int)
    ensures Holds([page], 0, 1, o, v) <==> page.Has(o, v)
  {
    assert [page][0] == page;
  }

  /** In chunks of more than a mebibyte the bytes of two mebibytes go to the same place. */
  lemma LargeChunksCollide(a: Addressing)
    requires a.KeysMatch() && LocatesChunks(a) && a.Locate(0).Located? && a.Chunk() > CHUNK_SIZE
    ensures IsBatch([Page(0, [1])]) && !PageArrives(a, Page(0, [1]))
  {
    var page := Page(0, [1]);
    var w := Write(a.Locate(0), 0, [1]);
    DivUnique(CHUNK_SIZE, a.Chunk(), 0, CHUNK_SIZE);
    DivUnique(0, a.Chunk(), 0, 0);
    assert Puts(a, [w][0], CHUNK_SIZE, 1);
    OneHas(page, CHUNK_SIZE, 1);
    assert Delivers(a, [w], CHUNK_SIZE, 1) && !Holds([page], 0, 1, CHUNK_SIZE, 1);
  }

  /** A byte that is read from another needle than the page is written to does not arrive. */
  lemma StrayByte(a: Addressing, page: Page, o: nat, v: int)
    requires a.KeysMatch() && page.Has(o, v) && o < OFFSET_LIMIT
    requires a.Locate(o).Located? && a.Locate(o) != a.Locate(page.offset)
    ensures !PageArrives(a, page)
  {
    var w := Write(a.Locate(page.offset), page.offset % CHUNK_SIZE, page.data);
    OneHas(page, o, v);
    assert !Puts(a, [w][0], o, v);
    assert !Delivers(a, [w], o, v);
  }

  lemma NextChunkIsElsewhere(a: Addressing, b: nat)
    requires a.KeysMatch() && LocatesChunks(a) && b < a.Chunk() <= CHUNK_SIZE && a.Locate(a.Chunk()).Located?
    ensures a.Locate(a.Chunk()) != a.Locate(b)
  {
    DivUnique(b, a.Chunk(), 0, b);
    DivUnique(a.Chunk(), a.Chunk(), 1, 0);
  }

  /** A page across the end of a chunk goes to the needle of its first byte as a whole. */
  lemma SplitPageStrays(a: Addressing) returns (page: Page)
    requires a.KeysMatch() && LocatesChunks(a) && a.Chunk() <= CHUNK_SIZE && a.Chunk() % PAGE_SIZE != 0
    requires a.Locate(a.Chunk()).Located?
    ensures IsBatch([page]) && !PageArrives(a, page)
  {
    var c := a.Chunk();
    var b := c - c % PAGE_SIZE;
    page := Page(b, seq(PAGE_SIZE, _ => 1));
    NextChunkIsElsewhere(a, b);
    StrayByte(a, page, c, 1);
  }

  /**
   * Every page of every file with such a layout arrives where it is read back, if and only if chunks
   * are whole pages and at most a mebibyte.
   */
  lemma ChunkSizeCondition(a: Addressing)
    requires a.KeysMatch() && LocatesChunks(a) && forall o: nat :: o < OFFSET_LIMIT ==> a.Locate(o).Located?
    ensures (forall page: Page :: IsBatch([page]) ==> PageArrives(a, page)) <==> Suits(a.Chunk())
  {
    if Suits(a.Chunk()) {
      forall page: Page | IsBatch([page])
        ensures PageArrives(a, page)
      {
        assert [page][0] == page;
        PageIsStretch(a, [page], 0);
        forall o: nat, v: int
          ensures page.Has(o, v) <==> Holds([page], 0, 1, o, v)
        {
          OneHas(page, o, v);
        }
        StretchIsFaithful(a, [page], 0, 1, page.offset, page.data);
      }
    } else if a.Chunk() > CHUNK_SIZE {
      LargeChunksCollide(a);
    } else {
      var page := SplitPageStrays(a);
    }
  }

  // ------------------------------------------------------------ what the servers then hold

  type Store = (Location, nat) -> int

  ghost function Apply(store: Store, w: Write): Store {
    (n: Location, i: nat) =>
      if n == w.needle && w.offset <= i < w.offset + |w.data| then w.data[i - w.offset] else store(n, i)
  }

  /** The writes take effect one after the other. */
  ghost function ApplyAll(store: Store, writes: seq<Write>): Store {
    if writes == [] then store else Apply(ApplyAll(store, writes[..|writes| - 1]), writes[|writes| - 1])
  }

  /** The byte of the file at offset o, read through locate. */
  ghost function Read(a: Addressing, store: Store, o: nat): int
    requires a.KeysMatch()
  {
    store(a.Locate(o), o % CHUNK_SIZE)
  }

  lemma {:induction false} ReadAfter(a: Addressing, store: Store, writes: seq<Write>, o: nat)
    requires a.KeysMatch()
    ensures Delivers(a, writes, o, Read(a, ApplyAll(store, writes), o)) ||
      (Read(a, ApplyAll(store, writes), o) == Read(a, store, o) && forall v :: !Delivers(a, writes, o, v))
  {
    if writes != [] {
      var n := |writes| - 1;
      var rest, w := writes[..n], writes[n];
      ReadAfter(a, store, rest, o);
      assert writes == rest + [w];
      forall v
        ensures Delivers(a, writes, o, v) <==> Delivers(a, rest, o, v) || Puts(a, w, o, v)
      {
        DeliversJoin(a, rest, [w], o, v);
        assert Delivers(a, [w], o, v) <==> Puts(a, [w][0], o, v);
      }
      if w.needle == a.Locate(o) && w.offset <= o % CHUNK_SIZE < w.offset + |w.data| {
        assert Puts(a, w, o, Read(a, ApplyAll(store, writes), o));
      }
    }
  }

  /** The writes of a batch, in whatever order the servers carry them out. */
  lemma OrderIsIrrelevant(a: Addressing, writes: seq<Write>, order: seq<Write>, o: nat, v: int)
    requires a.KeysMatch() && multiset(order) == multiset(writes)
    ensures Delivers(a, order, o, v) <==> Delivers(a, writes, o, v)
  {
    if Delivers(a, order, o, v) {
      var k :| 0 <= k < |order| && Puts(a, order[k], o, v);
      assert order[k] in multiset(order);
      assert order[k] in writes;
    }
    if Delivers(a, writes, o, v) {
      var k :| 0 <= k < |writes| && Puts(a, writes[k], o, v);
      assert writes[k] in multiset(writes);
      assert writes[k] in order;
    }
  }

  /**
   * Reading back through locate gives the old file overlaid with the pages, for every offset and
   * every order of completion.
   */
  lemma BatchOverlaysFile(a: Addressing, pages: seq<Page>, writes: seq<Write>, order: seq<Write>, store: Store, o: nat)
    requires IsAddressed(a) && IsBatch(pages) && Faithful(a, writes, pages, 0, |pages|)
    requires multiset(order) == multiset(writes) && o < OFFSET_LIMIT && a.Locate(o).Located?
    ensures forall v :: Holds(pages, 0, |pages|, o, v) ==> Read(a, ApplyAll(store, order), o) == v
    ensures (forall v :: !Holds(pages, 0, |pages|, o, v)) ==> Read(a, ApplyAll(store, order), o) == Read(a, store, o)
  {
    ReadAfter(a, store, order, o);
    forall v
      ensures Delivers(a, order, o, v) <==> Holds(pages, 0, |pages|, o, v)
    {
      OrderIsIrrelevant(a, writes, order, o, v);
    }
    var r := Read(a, ApplyAll(store, order), o);
    forall v | Holds(pages, 0, |pages|, o, v)
      ensures r == v
    {
      HoldsOneIn(pages, 0, |pages|, o, v, r);
    }
  }

  /** A byte that a request in place overwrites is a byte of the file. */
  lemma OverwritesFileByte(a: Addressing, w: Write, i: nat) returns (o: nat)
    requires IsAddressed(a) && InPlace(a, w) && w.offset <= i < w.offset + |w.data|
    ensures o < OFFSET_LIMIT && a.Locate(o) == w.needle && o % CHUNK_SIZE == i && Puts(a, w, o, w.data[i - w.offset])
  {
    var b: nat :| b < OFFSET_LIMIT && BeginsAt(a, w, b);
    o := b + (i - w.offset);
    StretchStays(b, o, a.Chunk(), |w.data|);
    SameNeedle(a, b, o);
  }

  /** Only the bytes of the pages change, on any needle of any file. */
  lemma {:induction false} OthersAreUntouched(
    a: Addressing, pages: seq<Page>, writes: seq<Write>, order: seq<Write>, store: Store, needle: Location, i: nat)
    requires IsAddressed(a) && Faithful(a, writes, pages, 0, |pages|)
    requires forall k :: 0 <= k < |order| ==> order[k] in writes
    requires forall o: nat, v: int :: o < OFFSET_LIMIT && Holds(pages, 0, |pages|, o, v) ==>
      !(a.Locate(o) == needle && o % CHUNK_SIZE == i)
    ensures ApplyAll(store, order)(needle, i) == store(needle, i)
  {
    if order != [] {
      var n := |order| - 1;
      var w := order[n];
      OthersAreUntouched(a, pages, writes, order[..n], store, needle, i);
      if w.needle == needle && w.offset <= i < w.offset + |w.data| {
        var k :| 0 <= k < |writes| && writes[k] == w;
        var o := OverwritesFileByte(a, w, i);
        assert Delivers(a, writes, o, w.data[i - w.offset]);
        assert false;
      }
    }
  }
}
