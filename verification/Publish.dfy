/**
 * powerfs_sync_inode_size_chunks: build the chunk table of a file, make its needles durable volume
 * by volume, and only then publish size and table to the filer.
 */
module Publish {
  import opened Arithmetic
  import opened Basics
  import opened Striping
  import opened Layout
  import opened Reload

  const MAX_CHUNKS: nat := 4096
  const EIO: int := -5
  const HUGE: nat := 0x10_0000_0000_0000

  // ------------------------------------------------------------ the table

  function Chunks(size: nat, chunk: nat): nat
    requires chunk > 0
  {
    (size + chunk - 1) / chunk
  }

  /** The number of entries: truncated to 32 bits, then capped. */
  function TableLength(size: nat, chunk: nat): (n: nat)
    requires chunk > 0
    ensures n <= MAX_CHUNKS
  {
    if Chunks(size, chunk) % U32 > MAX_CHUNKS then MAX_CHUNKS else Chunks(size, chunk) % U32
  }

  /** Where chunk k is published: by locating it if striped, from the file key otherwise. */
  function Place(a: Addressing, k: nat): Location
    requires a.KeysMatch()
  {
    if a.IsStriped() then a.Locate(k * a.Chunk()) else Located(a.volumeId, (a.fileKey + k) % U64)
  }

  /** Entry k describes chunk k; one that was not located has both ids zero. */
  ghost predicate Describes(cm: ChunkMap, a: Addressing, k: nat)
    requires a.KeysMatch()
  {
    && cm.chunkIdx == k
    && match Place(a, k)
       case Located(vid, nid) => cm.volumeId == vid && cm.needleId == nid
       case NotLocated => cm.volumeId == 0 && cm.needleId == 0
  }

  function TotalSize(table: seq<ChunkMap>): nat {
    if table == [] then 0 else TotalSize(table[..|table| - 1]) + table[|table| - 1].size
  }

  /** The last entry starts inside the file, so its size does not underflow. */
  lemma LastChunkStartsInside(size: nat, chunk: nat)
    requires chunk > 0 && TableLength(size, chunk) > 0
    ensures 0 <= (TableLength(size, chunk) - 1) * chunk <= size
  {
    var n, c := TableLength(size, chunk), Chunks(size, chunk);
    DivBound(size + chunk - 1, chunk);
    assert n <= c;
    MulMonotone(n - 1, c - 1, chunk, chunk);
    assert (c - 1) * chunk == c * chunk - chunk;
  }

  /** The size recorded for entry k of n. */
  function EntrySize(size: nat, chunk: nat, n: nat, k: nat): int {
    if k == n - 1 then size - k * chunk else chunk
  }

  lemma {:induction false} SizesAddUp(table: seq<ChunkMap>, size: nat, chunk: nat, n: nat)
    requires |table| <= n && forall k :: 0 <= k < |table| ==> table[k].size == EntrySize(size, chunk, n, k)
    ensures TotalSize(table) == if |table| < n then |table| * chunk else if n == 0 then 0 else size
  {
    if table != [] {
      SizesAddUp(table[..|table| - 1], size, chunk, n);
      assert |table| * chunk == (|table| - 1) * chunk + chunk;
    }
  }

  /** The entry sizes add up to the file size exactly when the truncated count is not zero. */
  method BuildTable(a: Addressing, size: nat) returns (table: array<ChunkMap>)
    requires a.KeysMatch() && size > 0
    ensures fresh(table) && table.Length == TableLength(size, a.Chunk())
    ensures forall k :: 0 <= k < table.Length ==> Describes(table[k], a, k)
    ensures forall k :: 0 <= k < table.Length - 1 ==> table[k].size == a.Chunk()
    ensures TotalSize(table[..]) == size <==> Chunks(size, a.Chunk()) % U32 != 0
  {
    var chunk := a.Chunk();
    var count := TableLength(size, chunk);
    table := new ChunkMap[count](_ => ChunkMap(0, 0, 0, 0));
    if count > 0 { LastChunkStartsInside(size, chunk); }
    for ci := 0 to count
      invariant forall k :: 0 <= k < ci ==>
        Describes(table[k], a, k) && table[k].size == EntrySize(size, chunk, count, k)
    {
      var loc := Place(a, ci);
      var vid := if loc.Located? then loc.volumeId else 0;
      var nid := if loc.Located? then loc.needleId else 0;
      table[ci] := ChunkMap(ci, vid, nid, EntrySize(size, chunk, count, ci));
    }
    SizesAddUp(table[..], size, chunk, count);
  }

  /** A file of 2^52 bytes in chunks of a mebibyte: its count of chunks is zero in 32 bits, and so is the table. */
  method HugeFileIsUncounted(a: Addressing) returns (table: array<ChunkMap>)
    requires a.KeysMatch() && a.Chunk() == CHUNK_SIZE
    ensures table.Length == TableLength(HUGE, CHUNK_SIZE) == 0 && TotalSize(table[..]) != HUGE
  {
    assert Chunks(HUGE, CHUNK_SIZE) == U32;
    table := BuildTable(a, HUGE);
  }

  /** What a reload rebuilds from the published table of a striped file is its own base needles. */
  lemma PublishedTableReloads(a: Addressing, table: seq<ChunkMap>)
    requires a.IsStriped() && a.KeysMatch() && a.keys.Some? && |a.volumeIds| > 0
    requires AreBases(a.keys.value) && a.Shape().Aligned()
    requires forall k :: 0 <= k < |table| ==> Describes(table[k], a, k)
    requires (|a.volumeIds| - 1) * a.Shape().PerUnit() < |table|
    ensures forall v :: 0 <= v < |a.volumeIds| ==>
      FirstBase(table, |a.volumeIds|, a.start, a.Shape().PerUnit(), v) == a.keys.value[v]
  {
    var g, keys := a.Shape(), a.keys.value;
    forall k | 0 <= k < |table|
      ensures table[k].needleId == NeedleAt(g, keys, table[k].chunkIdx)
    {
      assert Describes(table[k], a, k);
    }
    forall v | 0 <= v < g.volumes
      ensures Touches(g, table, v)
    {
      var rank := RankOf(g, v);
      DenseTableTouches(g, table, rank);
      MulMonotone(rank, g.volumes - 1, g.PerUnit(), g.PerUnit());
    }
    ReloadRoundTrip(g, keys, table);
  }

  // ------------------------------------------------------------ flushing volume by volume

  /** An entry that has data to flush. */
  predicate Live(cm: ChunkMap) {
    cm.volumeId != 0 && cm.needleId != 0
  }

  /** The needles that the entries from `from` on hold on a volume, in order. */
  function NeedlesOn(chunks: seq<ChunkMap>, vid: nat, from: nat, end: nat): (keys: seq<nat>)
    requires from <= end <= |chunks|
  {
    if from == end then [] else NeedlesOn(chunks, vid, from, end - 1) + NeedleOn(chunks[end - 1], vid)
  }

  function NeedleOn(cm: ChunkMap, vid: nat): (keys: seq<nat>) {
    if cm.volumeId == vid && cm.needleId != 0 then [cm.needleId] else []
  }

  /** The volume id occurs among the first i entries, live or not. */
  predicate Seen(chunks: seq<ChunkMap>, vid: nat, i: nat)
    requires i <= |chunks|
  {
    exists s :: 0 <= s < i && chunks[s].volumeId == vid
  }

  predicate StartsGroup(chunks: seq<ChunkMap>, i: nat)
    requires i < |chunks|
  {
    Live(chunks[i]) && !Seen(chunks, chunks[i].volumeId, i)
  }

  datatype Event =
    | Flush(volumeId: nat, needles: seq<nat>, ret: int)
    | Update(size: nat, chunks: seq<ChunkMap>, ret: int)

  /** The flushes that succeed when the groups starting below n are sent. */
  ghost function Plan(chunks: seq<ChunkMap>, n: nat): (p: seq<Event>)
    requires n <= |chunks|
  {
    if n == 0 then []
    else if StartsGroup(chunks, n - 1) then Plan(chunks, n - 1) + [GroupFlush(chunks, n - 1, 0)]
    else Plan(chunks, n - 1)
  }

  /** The flush of the group that starts at entry i, with its outcome. */
  ghost function GroupFlush(chunks: seq<ChunkMap>, i: nat, ret: int): Event
    requires i < |chunks|
  {
    Flush(chunks[i].volumeId, NeedlesOn(chunks, chunks[i].volumeId, i, |chunks|), ret)
  }

  /** The servers: calls may fail, and every call is recorded. */
  class Servers {
    var log: seq<Event>

    constructor ()
      ensures log == []
    {
      log := [];
    }

    method FlushNeedles(vid: nat, keys: seq<nat>) returns (ret: int)
      modifies this
      ensures log == old(log) + [Flush(vid, keys, ret)]
    {
      ret := *;
      log := log + [Flush(vid, keys, ret)];
    }

    method UpdateInode(size: nat, chunks: seq<ChunkMap>) returns (ret: int)
      modifies this
      ensures log == old(log) + [Update(size, chunks, ret)]
    {
      ret := *;
      log := log + [Update(size, chunks, ret)];
    }
  }

  method ScanSeen(chunks: seq<ChunkMap>, vid: nat, i: nat) returns (seen: bool)
    requires i <= |chunks|
    ensures seen <==> Seen(chunks, vid, i)
  {
    seen := false;
    for sk := 0 to i
      invariant !Seen(chunks, vid, sk)
    {
      if chunks[sk].volumeId == vid {
        return true;
      }
    }
  }

  method CollectKeys(chunks: seq<ChunkMap>, vid: nat, from: nat) returns (keys: seq<nat>)
    requires from <= |chunks|
    ensures keys == NeedlesOn(chunks, vid, from, |chunks|)
  {
    var flushKeys := new nat[|chunks| - from](_ => 0);
    var nk := 0;
    for cj := from to |chunks|
      invariant nk <= cj - from && flushKeys[..nk] == NeedlesOn(chunks, vid, from, cj)
    {
      if chunks[cj].volumeId == vid && chunks[cj].needleId != 0 {
        flushKeys[nk] := chunks[cj].needleId;
        nk := nk + 1;
      }
    }
    keys := flushKeys[..nk];
  }

  /** The flush loop: all planned flushes succeed, or it stops at the first that fails. */
  method FlushAll(chunks: seq<ChunkMap>, servers: Servers) returns (ret: int, ghost done: nat)
    modifies servers
    ensures done <= |chunks|
    ensures ret == 0 ==> done == |chunks| && servers.log == old(servers.log) + Plan(chunks, |chunks|)
    ensures ret != 0 ==> done < |chunks| && StartsGroup(chunks, done)
    ensures ret != 0 ==> servers.log == old(servers.log) + Plan(chunks, done) + [GroupFlush(chunks, done, ret)]
  {
    var ci := 0;
    ret := 0;
    while ci < |chunks|
      invariant ci <= |chunks| && servers.log == old(servers.log) + Plan(chunks, ci)
    {
      var vid := chunks[ci].volumeId;
      if vid != 0 && chunks[ci].needleId != 0 {
        var seen := ScanSeen(chunks, vid, ci);
        if !seen {
          var keys := CollectKeys(chunks, vid, ci);
          ret := servers.FlushNeedles(vid, keys);
          if ret != 0 {
            return ret, ci;
          }
        }
      }
      ci := ci + 1;
    }
    done := ci;
  }

  // ------------------------------------------------------------ exactly once

  /** How often a plan flushes a needle of a volume. */
  ghost function Flushes(plan: seq<Event>, vid: nat, nid: nat): nat {
    if plan == [] then 0 else Flushes(plan[..|plan| - 1], vid, nid) + Share(plan[|plan| - 1], vid, nid)
  }

  ghost function Share(e: Event, vid: nat, nid: nat): nat {
    if e.Flush? && e.volumeId == vid then Occurrences(e.needles, nid) else 0
  }

  ghost function Occurrences(s: seq<nat>, x: nat): nat {
    if s == [] then 0 else Occurrences(s[..|s| - 1], x) + if s[|s| - 1] == x then 1 else 0
  }

  /** How often the live entries name it. */
  ghost function Names(chunks: seq<ChunkMap>, vid: nat, nid: nat, from: nat, end: nat): nat
    requires from <= end <= |chunks|
  {
    if from == end then 0 else Names(chunks, vid, nid, from, end - 1) + Named(chunks[end - 1], vid, nid)
  }

  ghost function Named(cm: ChunkMap, vid: nat, nid: nat): nat {
    if Live(cm) && cm.volumeId == vid && cm.needleId == nid then 1 else 0
  }

  lemma {:induction false} NeedlesOnCount(chunks: seq<ChunkMap>, vid: nat, nid: nat, from: nat, end: nat)
    requires from <= end <= |chunks| && vid != 0
    ensures Occurrences(NeedlesOn(chunks, vid, from, end), nid) == Names(chunks, vid, nid, from, end)
  {
    if from < end {
      NeedlesOnCount(chunks, vid, nid, from, end - 1);
      var before, cm := NeedlesOn(chunks, vid, from, end - 1), chunks[end - 1];
      if cm.volumeId == vid && cm.needleId != 0 {
        assert (before + [cm.needleId])[..|before|] == before;
      } else {
        assert before + [] == before;
      }
    }
  }

  lemma {:induction false} NoneBefore(chunks: seq<ChunkMap>, vid: nat, nid: nat, i: nat, end: nat)
    requires i <= end <= |chunks| && !Seen(chunks, vid, i)
    ensures Names(chunks, vid, nid, 0, end) == Names(chunks, vid, nid, i, end)
    decreases end
  {
    if end > i {
      NoneBefore(chunks, vid, nid, i, end - 1);
    } else if end > 0 {
      assert chunks[end - 1].volumeId != vid;
      NoneBefore(chunks, vid, nid, end - 1, end - 1);
    }
  }

  /** Some group for the volume starts below n. */
  ghost predicate Grouped(chunks: seq<ChunkMap>, vid: nat, n: nat)
    requires n <= |chunks|
  {
    exists i :: 0 <= i < n && StartsGroup(chunks, i) && chunks[i].volumeId == vid
  }

  lemma FlushesAppend(plan: seq<Event>, e: Event, vid: nat, nid: nat)
    ensures Flushes(plan + [e], vid, nid) == Flushes(plan, vid, nid) + Share(e, vid, nid)
  {
    assert (plan + [e])[..|plan|] == plan;
  }

  /** The flush of a group covers all the live entries of its volume. */
  lemma GroupShare(chunks: seq<ChunkMap>, i: nat, vid: nat, nid: nat)
    requires i < |chunks| && StartsGroup(chunks, i)
    ensures Share(GroupFlush(chunks, i, 0), vid, nid)
      == if chunks[i].volumeId == vid then Names(chunks, vid, nid, 0, |chunks|) else 0
  {
    if chunks[i].volumeId == vid {
      NeedlesOnCount(chunks, vid, nid, i, |chunks|);
      NoneBefore(chunks, vid, nid, i, |chunks|);
    }
  }

  /** With a group for the volume its live entries are flushed once; without one, never. */
  lemma {:induction false} PlanCount(chunks: seq<ChunkMap>, vid: nat, nid: nat, n: nat)
    requires n <= |chunks|
    ensures Flushes(Plan(chunks, n), vid, nid) ==
      if Grouped(chunks, vid, n) then Names(chunks, vid, nid, 0, |chunks|) else 0
  {
    if n > 0 {
      PlanCount(chunks, vid, nid, n - 1);
      GroupedStep(chunks, vid, n);
      if StartsGroup(chunks, n - 1) {
        FlushesAppend(Plan(chunks, n - 1), GroupFlush(chunks, n - 1, 0), vid, nid);
        GroupShare(chunks, n - 1, vid, nid);
      }
    }
  }

  /** At most one entry starts a volume's group. */
  lemma GroupedStep(chunks: seq<ChunkMap>, vid: nat, n: nat)
    requires 0 < n <= |chunks|
    ensures Grouped(chunks, vid, n) <==>
      Grouped(chunks, vid, n - 1) || (StartsGroup(chunks, n - 1) && chunks[n - 1].volumeId == vid)
    ensures StartsGroup(chunks, n - 1) && chunks[n - 1].volumeId == vid ==> !Grouped(chunks, vid, n - 1)
  {
  }

  /** The first entry on each live entry's volume is itself live. */
  ghost predicate FirstsAreLive(chunks: seq<ChunkMap>) {
    forall i :: 0 <= i < |chunks| && Live(chunks[i]) ==> Grouped(chunks, chunks[i].volumeId, |chunks|)
  }

  ghost predicate FlushedOnce(chunks: seq<ChunkMap>) {
    forall vid: nat, nid: nat :: vid != 0 ==>
      Flushes(Plan(chunks, |chunks|), vid, nid) == Names(chunks, vid, nid, 0, |chunks|)
  }

  lemma {:induction false} NamesSome(chunks: seq<ChunkMap>, vid: nat, nid: nat, end: nat)
    requires end <= |chunks|
    ensures Names(chunks, vid, nid, 0, end) > 0 <==>
      exists i :: 0 <= i < end && Live(chunks[i]) && chunks[i].volumeId == vid && chunks[i].needleId == nid
  {
    if end > 0 {
      NamesSome(chunks, vid, nid, end - 1);
    }
  }

  /** Every live entry is flushed once per occurrence exactly when first entries are live. */
  lemma FlushCondition(chunks: seq<ChunkMap>)
    ensures FlushedOnce(chunks) <==> FirstsAreLive(chunks)
  {
    forall vid: nat, nid: nat | vid != 0
      ensures Flushes(Plan(chunks, |chunks|), vid, nid) ==
        if Grouped(chunks, vid, |chunks|) then Names(chunks, vid, nid, 0, |chunks|) else 0
      ensures Names(chunks, vid, nid, 0, |chunks|) > 0 <==>
        exists i :: 0 <= i < |chunks| && Live(chunks[i]) && chunks[i].volumeId == vid && chunks[i].needleId == nid
    {
      PlanCount(chunks, vid, nid, |chunks|);
      NamesSome(chunks, vid, nid, |chunks|);
    }
    if !FirstsAreLive(chunks) {
      var i :| 0 <= i < |chunks| && Live(chunks[i]) && !Grouped(chunks, chunks[i].volumeId, |chunks|);
      assert Names(chunks, chunks[i].volumeId, chunks[i].needleId, 0, |chunks|) > 0;
      assert Flushes(Plan(chunks, |chunks|), chunks[i].volumeId, chunks[i].needleId) == 0;
    }
  }

  /** If ids are zero together in every entry, all live entries are flushed. */
  lemma PairedIdsFlush(chunks: seq<ChunkMap>)
    requires forall i :: 0 <= i < |chunks| ==> (chunks[i].volumeId == 0 <==> chunks[i].needleId == 0)
    ensures FlushedOnce(chunks)
  {
    forall i | 0 <= i < |chunks| && Live(chunks[i])
      ensures Grouped(chunks, chunks[i].volumeId, |chunks|)
    {
      var f := FirstOn(chunks, i);
      assert StartsGroup(chunks, f);
    }
    FlushCondition(chunks);
  }

  lemma FirstOn(chunks: seq<ChunkMap>, i: nat) returns (f: nat)
    requires i < |chunks|
    ensures f <= i && chunks[f].volumeId == chunks[i].volumeId && !Seen(chunks, chunks[i].volumeId, f)
  {
    f := i;
    if Seen(chunks, chunks[i].volumeId, i) {
      var s :| 0 <= s < i && chunks[s].volumeId == chunks[i].volumeId;
      f := FirstOn(chunks, s);
    }
  }

  // ------------------------------------------------------------ which files lose a flush

  /** The ids that chunk k is published with. */
  function VolumeIdOf(a: Addressing, k: nat): nat
    requires a.KeysMatch()
  {
    match Place(a, k) case Located(vid, _) => vid case NotLocated => 0
  }

  function NeedleIdOf(a: Addressing, k: nat): nat
    requires a.KeysMatch()
  {
    match Place(a, k) case Located(_, nid) => nid case NotLocated => 0
  }

  /** No earlier chunk has the volume id of chunk j. */
  ghost predicate IsFirst(a: Addressing, j: nat)
    requires a.KeysMatch()
  {
    forall i: nat :: i < j ==> VolumeIdOf(a, i) != VolumeIdOf(a, j)
  }

  /** Of the first n chunks: if the first one on a volume has no needle, none of the volume has one. */
  ghost predicate FirstNeedlesDecide(a: Addressing, n: nat)
    requires a.KeysMatch()
  {
    forall j: nat, k: nat :: j <= k < n && IsFirst(a, j) && VolumeIdOf(a, j) == VolumeIdOf(a, k) ==>
      VolumeIdOf(a, k) == 0 || NeedleIdOf(a, k) == 0 || NeedleIdOf(a, j) != 0
  }

  /** For the table of any file, whatever its layout. */
  lemma PlacedFlushCondition(a: Addressing, table: seq<ChunkMap>)
    requires a.KeysMatch() && forall k :: 0 <= k < |table| ==> Describes(table[k], a, k)
    ensures FlushedOnce(table) <==> FirstNeedlesDecide(a, |table|)
  {
    FlushCondition(table);
    if FirstNeedlesDecide(a, |table|) {
      forall i: nat | i < |table| && Live(table[i])
        ensures Grouped(table, table[i].volumeId, |table|)
      {
        var f := FirstOn(table, i);
        FirstDecides(a, table, i, f);
      }
    } else {
      var j: nat, k: nat :| j <= k < |table| && IsFirst(a, j) && VolumeIdOf(a, j) == VolumeIdOf(a, k) &&
        VolumeIdOf(a, k) != 0 && NeedleIdOf(a, k) != 0 && NeedleIdOf(a, j) == 0;
      var f := FirstOn(table, k);
      FirstDecides(a, table, k, f);
      assert f == j;
    }
  }

  lemma FirstDecides(a: Addressing, table: seq<ChunkMap>, i: nat, f: nat)
    requires a.KeysMatch() && forall k :: 0 <= k < |table| ==> Describes(table[k], a, k)
    requires f <= i < |table| && Live(table[i])
    requires table[f].volumeId == table[i].volumeId && !Seen(table, table[i].volumeId, f)
    ensures IsFirst(a, f) && VolumeIdOf(a, f) == VolumeIdOf(a, i)
    ensures Live(table[i]) <==> VolumeIdOf(a, i) != 0 && NeedleIdOf(a, i) != 0
    ensures Grouped(table, table[i].volumeId, |table|) <==> NeedleIdOf(a, f) != 0
  {
    assert Describes(table[f], a, f) && Describes(table[i], a, i);
    forall k: nat | k < f ensures VolumeIdOf(a, k) != VolumeIdOf(a, f) {
      assert Describes(table[k], a, k);
    }
    if NeedleIdOf(a, f) != 0 {
      assert StartsGroup(table, f);
    } else {
      forall s | 0 <= s < |table| && table[s].volumeId == table[i].volumeId
        ensures !StartsGroup(table, s)
      {
        if s > f { assert table[f].volumeId == table[s].volumeId; }
      }
    }
  }

  // ------------------------------------------------------------ striped files

  /** The ids of a chunk of a striped file with volumes. */
  lemma StripedIds(a: Addressing, k: nat)
    requires a.IsStriped() && a.KeysMatch() && |a.volumeIds| > 0
    ensures var g := a.Shape(); var v := g.Volume(k * g.chunk);
      VolumeIdOf(a, k) == a.volumeIds[v] && NeedleIdOf(a, k) == (a.Base(v) + g.VolumeChunk(k * g.chunk)) % U64
  {
  }

  /** A chunk that starts further into its unit than a chunk's length follows one of the same unit. */
  lemma SameUnit(g: Geometry, k: nat)
    requires g.Valid() && k * g.chunk % g.stripe >= g.chunk
    ensures k > 0 && g.Volume((k - 1) * g.chunk) == g.Volume(k * g.chunk)
  {
    var o, c, s := k * g.chunk, g.chunk, g.stripe;
    assert k > 0 by {
      DivAtMost(o, s);
      assert o == o / s * s + o % s;
    }
    assert (k - 1) * c == o - c;
    DivUnique(o - c, s, o / s, o % s - c);
  }

  /** If units are at least a chunk long, some chunk starts in every unit. */
  lemma UnitStarts(t: nat, c: nat, s: nat) returns (i: nat)
    requires 0 < c <= s
    ensures t * s <= i * c < t * s + c && i * c / s == t
  {
    var lo := t * s + c - 1;
    i := lo / c;
    DivBound(lo, c);
    assert (lo / c + 1) * c == i * c + c;
    DivUnique(i * c, s, t, i * c - t * s);
  }

  /** Then a chunk in a later round follows one of the same volume in the round before. */
  lemma RoundBefore(g: Geometry, k: nat) returns (i: nat)
    requires g.Valid() && g.chunk <= g.stripe && k * g.chunk / g.stripe >= g.volumes
    ensures i < k && g.Volume(i * g.chunk) == g.Volume(k * g.chunk)
  {
    var u, n := k * g.chunk / g.stripe, g.volumes;
    var t := u - n;
    i := UnitStarts(t, g.chunk, g.stripe);
    DivUnique(t, n, u / n - 1, u % n) by {
      assert (u / n - 1) * n == u / n * n - n;
    }
    assert i < k by {
      DivBound(k * g.chunk, g.stripe);
      MulMonotone(t + 1, u, g.stripe, g.stripe);
      assert (t + 1) * g.stripe == t * g.stripe + g.stripe;
      if i >= k { MulMonotone(k, i, g.chunk, g.chunk); }
    }
  }

  lemma NumberZero(g: Geometry, o: nat)
    requires g.Valid() && o % g.stripe < g.chunk && o / g.stripe < g.volumes
    ensures g.VolumeChunk(o) == 0
  {
    DivUnique(o / g.stripe, g.volumes, 0, o / g.stripe);
    DivUnique(o % g.stripe, g.chunk, 0, o % g.stripe);
  }

  /** So a chunk with a number other than zero on its volume is not the first one there. */
  lemma OneBefore(g: Geometry, k: nat) returns (i: nat)
    requires g.Valid() && g.chunk <= g.stripe && g.VolumeChunk(k * g.chunk) != 0
    ensures i < k && g.Volume(i * g.chunk) == g.Volume(k * g.chunk)
  {
    var o := k * g.chunk;
    if o % g.stripe < g.chunk && o / g.stripe < g.volumes { NumberZero(g, o); }
    if o % g.stripe >= g.chunk {
      SameUnit(g, k);
      i := k - 1;
    } else {
      i := RoundBefore(g, k);
    }
  }

  lemma FirstIsBase(a: Addressing, j: nat)
    requires a.IsStriped() && a.KeysMatch() && |a.volumeIds| > 0 && a.Shape().chunk <= a.Shape().stripe
    requires IsFirst(a, j)
    ensures a.Shape().VolumeChunk(j * a.Shape().chunk) == 0
  {
    var g := a.Shape();
    if g.VolumeChunk(j * g.chunk) != 0 {
      var i := OneBefore(g, j);
      StripedIds(a, j);
      StripedIds(a, i);
    }
  }

  /** If chunk k is not the first one on its volume, that volume has a nonzero base needle. */
  ghost predicate BaseIsLive(a: Addressing, k: nat)
    requires a.KeysMatch() && |a.volumeIds| > 0
  {
    var g := a.Shape();
    var v := g.Volume(k * g.chunk);
    g.VolumeChunk(k * g.chunk) == 0 || a.volumeIds[v] == 0 || a.Base(v) % U64 != 0
  }

  /** The number of a chunk on its volume is at most its number in the file. */
  lemma VolumeChunkAtMost(g: Geometry, k: nat)
    requires g.Valid() && g.chunk <= g.stripe
    ensures 0 <= g.VolumeChunk(k * g.chunk) <= k
  {
    var o, c, s, q := k * g.chunk, g.chunk, g.stripe, g.PerUnit();
    UnitHoldsChunks(g);
    FewerRounds(o / s, g.volumes, q);
    PartOfUnit(o, s, c);
    NumberAtMost(o / s, q, o % s / c, c, s, o % s, k);
  }

  lemma FewerRounds(u: nat, n: nat, q: nat)
    requires n > 0
    ensures 0 <= u / n * q <= u * q
  {
    DivAtMost(u, n);
    MulMonotone(u / n, u, q, q);
  }

  lemma PartOfUnit(o: nat, s: nat, c: nat)
    requires s > 0 && c > 0
    ensures o / s >= 0 && o == o / s * s + o % s && o % s / c >= 0 && o % s / c * c <= o % s
  {
    DivAtMost(o, s);
    DivAtMost(o % s, c);
    DivBound(o % s, c);
  }

  lemma UnitHoldsChunks(g: Geometry)
    requires g.Valid() && g.chunk <= g.stripe
    ensures g.PerUnit() * g.chunk <= g.stripe
  {
    DivBound(g.stripe, g.chunk);
    DivMonotone(g.chunk, g.stripe, g.chunk);
    DivUnique(g.chunk, g.chunk, 1, 0);
  }

  lemma NumberAtMost(u: nat, q: nat, r: nat, c: nat, s: nat, x: nat, k: nat)
    requires c > 0 && q * c <= s && r * c <= x && k * c == u * s + x
    ensures u * q + r <= k
  {
    MulMonotone(u, u, q * c, s);
    assert (u * q + r) * c == u * (q * c) + r * c;
    assert (k + 1) * c == k * c + c;
    if u * q + r > k { MulMonotone(k + 1, u * q + r, c, c); }
  }

  lemma FirstFor(a: Addressing, k: nat) returns (j: nat)
    requires a.KeysMatch()
    ensures j <= k && IsFirst(a, j) && VolumeIdOf(a, j) == VolumeIdOf(a, k)
  {
    j := k;
    if !IsFirst(a, k) {
      var i: nat :| i < k && VolumeIdOf(a, i) == VolumeIdOf(a, k);
      j := FirstFor(a, i);
    }
  }

  /** The first chunk on the volume of chunk k has the base needle of that volume. */
  lemma BaseDecides(a: Addressing, j: nat, k: nat)
    requires a.IsStriped() && a.KeysMatch() && |a.volumeIds| > 0 && Distinct(a.volumeIds) && k < U64
    requires a.Shape().chunk <= a.Shape().stripe && IsFirst(a, j) && VolumeIdOf(a, j) == VolumeIdOf(a, k)
    ensures BaseIsLive(a, k) <==> VolumeIdOf(a, k) == 0 || NeedleIdOf(a, k) == 0 || NeedleIdOf(a, j) != 0
  {
    FirstIsBase(a, j);
    StripedIds(a, j);
    StripedIds(a, k);
    var g := a.Shape();
    VolumeChunkAtMost(g, k);
    if a.Base(g.Volume(k * g.chunk)) % U64 == 0 {
      FromZeroBase(a.Base(g.Volume(k * g.chunk)), g.VolumeChunk(k * g.chunk));
    }
  }

  lemma FromZeroBase(base: nat, x: nat)
    requires base % U64 == 0 && x < U64
    ensures (base + x) % U64 == x
  {
  }

  /**
   * For the table of a striped file whose units are at least a chunk long, aligned or not: every live
   * entry is flushed exactly once if and only if each volume with a later chunk in the table has a
   * nonzero base needle.
   */
  lemma StripedFlushCondition(a: Addressing, table: seq<ChunkMap>)
    requires a.IsStriped() && a.KeysMatch() && |a.volumeIds| > 0 && Distinct(a.volumeIds)
    requires a.Shape().chunk <= a.Shape().stripe && |table| <= U64
    requires forall k :: 0 <= k < |table| ==> Describes(table[k], a, k)
    ensures FlushedOnce(table) <==> forall k: nat :: k < |table| ==> BaseIsLive(a, k)
  {
    var g := a.Shape();
    PlacedFlushCondition(a, table);
    forall k: nat | k < |table| && FirstNeedlesDecide(a, |table|)
      ensures BaseIsLive(a, k)
    {
      var j := FirstFor(a, k);
      BaseDecides(a, j, k);
    }
    forall j: nat, k: nat | j <= k < |table| && IsFirst(a, j) && VolumeIdOf(a, j) == VolumeIdOf(a, k)
      ensures BaseIsLive(a, k) ==> VolumeIdOf(a, k) == 0 || NeedleIdOf(a, k) == 0 || NeedleIdOf(a, j) != 0
    {
      BaseDecides(a, j, k);
    }
  }

  /** A flat file's entries are all flushed: the first one has the file key. */
  lemma FlatFlushes(a: Addressing, table: seq<ChunkMap>)
    requires !a.IsStriped() && a.KeysMatch() && a.volumeId != 0 && 0 < a.fileKey < U64
    requires forall k :: 0 <= k < |table| ==> Describes(table[k], a, k)
    ensures FlushedOnce(table)
  {
    forall i | 0 <= i < |table| && Live(table[i])
      ensures Grouped(table, table[i].volumeId, |table|)
    {
      assert Describes(table[0], a, 0) && Describes(table[i], a, i);
      assert StartsGroup(table, 0);
    }
    FlushCondition(table);
  }

  /** A file striped over two volumes, two chunks to a unit, with the given base needles. */
  function OverTwo(first: nat, second: nat): (a: Addressing)
    ensures a.KeysMatch() && a.IsStriped() && |a.volumeIds| == 2 && Distinct(a.volumeIds)
    ensures a.Shape() == Geometry(2, 0, CHUNK_SIZE, 2 * CHUNK_SIZE)
  {
    Addressing(STRIPE, CHUNK_SIZE, 0, 0, [], [7, 8], Some([first, second]), 2 * CHUNK_SIZE, 0)
  }

  /** Reopening such a file while it has two chunks leaves the second volume without a base. */
  lemma ShortFileReopens(table: seq<ChunkMap>)
    requires |table| == 2 && forall k :: 0 <= k < 2 ==> Describes(table[k], OverTwo(9, 5), k)
    ensures FirstBase(table, 2, 0, 2, 0) == 9 && FirstBase(table, 2, 0, 2, 1) == 0
  {
    var a := OverTwo(9, 5);
    var g, keys := a.Shape(), a.keys.value;
    assert g.PerUnit() == 2 && g.Rotated(0) == 0 && g.Rotated(1) == 1;
    forall k | 0 <= k < 2
      ensures table[k].needleId == NeedleAt(g, keys, table[k].chunkIdx) && table[k].chunkIdx == k
    {
      assert Describes(table[k], a, k);
      StripedIds(a, k);
    }
    RebuiltKey(g, keys, table, 0);
    RebuiltKey(g, keys, table, 1);
    DenseTableTouches(g, table, 0);
    DenseTableTouches(g, table, 1);
  }

  /**
   * When the file that was reopened so grows to four chunks, the fourth has a needle on the second
   * volume and is not flushed before the table is published.
   */
  lemma ZeroBaseLosesFlush(table: seq<ChunkMap>)
    requires 4 <= |table| <= U64 && forall k :: 0 <= k < |table| ==> Describes(table[k], OverTwo(9, 0), k)
    ensures !FlushedOnce(table)
  {
    var a := OverTwo(9, 0);
    var g := a.Shape();
    assert g.PerUnit() == 2 && g.Volume(3 * g.chunk) == 1 && g.VolumeChunk(3 * g.chunk) == 1;
    StripedFlushCondition(a, table);
    assert !BaseIsLive(a, 3);
  }

  // ------------------------------------------------------------ the whole call

  /** Updates that were all refused. */
  ghost predicate AllRefused(updates: seq<Event>, size: nat, chunks: seq<ChunkMap>) {
    forall i :: 0 <= i < |updates| ==> updates[i].ret != 0 && updates[i] == Update(size, chunks, updates[i].ret)
  }

  /** The retry loop stops at the first accepted update or after the last attempt. */
  method Retry(size: nat, chunks: seq<ChunkMap>, attempts: int, servers: Servers)
    returns (ret: int, ghost refused: seq<Event>)
    modifies servers
    ensures AllRefused(refused, size, chunks)
    ensures ret == 0 ==> |refused| < attempts && servers.log == old(servers.log) + refused + [Update(size, chunks, 0)]
    ensures ret != 0 ==>
      |refused| == (if attempts < 0 then 0 else attempts) && servers.log == old(servers.log) + refused
    ensures ret != 0 ==> ret == if attempts <= 0 then EIO else refused[|refused| - 1].ret
  {
    ret, refused := EIO, [];
    var attempt := 1;
    while attempt <= attempts
      invariant attempt >= 1 && |refused| == attempt - 1
      invariant if attempts >= 0 then attempt <= attempts + 1 else attempt == 1
      invariant AllRefused(refused, size, chunks) && servers.log == old(servers.log) + refused
      invariant ret == (if refused == [] then EIO else refused[|refused| - 1].ret) != 0
    {
      ret := servers.UpdateInode(size, chunks);
      if ret == 0 {
        break;
      }
      refused := refused + [Update(size, chunks, ret)];
      attempt := attempt + 1;
    }
  }

  /** Nothing to publish for this inode. */
  predicate NothingToDo(a: Addressing, size: nat) {
    || (a.placement != FLAT && !a.IsStriped())
    || size == 0
    || (a.IsStriped() && |a.volumeIds| == 0)
    || (!a.IsStriped() && (a.volumeId == 0 || a.fileKey == 0))
  }

  /**
   * The whole call. Either nothing is sent, or the flushes come first; an update is sent only after
   * all planned flushes succeeded, and the committed size moves only when an update is accepted.
   */
  method SyncSizeChunks(a: Addressing, size: nat, contentSize: nat, attempts: int, servers: Servers)
    returns (ret: int, committed: nat, ghost table: seq<ChunkMap>, ghost flushed: nat, ghost updates: seq<Event>)
    requires a.KeysMatch()
    modifies servers
    ensures NothingToDo(a, size) ==> ret == 0 && committed == contentSize && servers.log == old(servers.log)
    ensures !NothingToDo(a, size) ==> IsTable(table, a, size) && flushed <= |table|
    ensures !NothingToDo(a, size) && flushed < |table| ==>
      && ret != 0 && updates == [] && StartsGroup(table, flushed)
      && servers.log == old(servers.log) + Plan(table, flushed) + [GroupFlush(table, flushed, ret)]
    ensures !NothingToDo(a, size) && flushed == |table| ==>
      servers.log == old(servers.log) + Plan(table, |table|) + updates
    ensures forall i :: 0 <= i < |updates| ==> updates[i] == Update(size, table, updates[i].ret)
    ensures forall i :: |old(servers.log)| <= i < |servers.log| && servers.log[i].Update? ==> updates != []
    ensures !NothingToDo(a, size) && flushed == |table| && size == contentSize ==> ret == 0 && updates == []
    ensures !NothingToDo(a, size) && flushed == |table| && size != contentSize ==>
      && |updates| <= (if attempts < 0 then 0 else attempts)
      && ret == (if updates == [] then EIO else updates[|updates| - 1].ret)
    ensures committed == if updates != [] && ret == 0 then size else contentSize
  {
    ret, committed, table, flushed, updates := 0, contentSize, [], 0, [];
    if NothingToDo(a, size) {
      return;
    }
    var entries := BuildTable(a, size);
    var chunks := entries[..];
    table := chunks;
    ret, flushed := FlushAll(chunks, servers);
    PlanIsFlushes(chunks, flushed);
    if ret != 0 || size == contentSize {
      return;
    }
    ghost var refused;
    ret, refused := Retry(size, chunks, attempts, servers);
    updates := if ret == 0 then refused + [Update(size, chunks, 0)] else refused;
    if ret == 0 {
      committed := size;
    }
  }

  /** The table of a file: what BuildTable promises, on values. */
  ghost predicate IsTable(table: seq<ChunkMap>, a: Addressing, size: nat)
    requires a.KeysMatch()
  {
    && |table| == TableLength(size, a.Chunk())
    && (forall k :: 0 <= k < |table| ==> Describes(table[k], a, k))
    && (forall k :: 0 <= k < |table| - 1 ==> table[k].size == a.Chunk())
    && (TotalSize(table) == size <==> Chunks(size, a.Chunk()) % U32 != 0)
  }

  lemma {:induction false} PlanIsFlushes(chunks: seq<ChunkMap>, n: nat)
    requires n <= |chunks|
    ensures forall i :: 0 <= i < |Plan(chunks, n)| ==> Plan(chunks, n)[i].Flush?
  {
    if n > 0 {
      PlanIsFlushes(chunks, n - 1);
    }
  }
}
