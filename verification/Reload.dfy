/**
 * Publishing a striped file's chunk table and rebuilding the per-volume base needles from it,
 * as a client does when it opens the file again.
 */
module Reload {
  import opened Arithmetic
  import opened Basics
  import opened Striping
  import opened Layout

  // ------------------------------------------------------------ rebuilding the base needles

  /** The volume that the rebuilding loop assigns a table entry to (q chunks per unit). */
  function EntryVolume(n: nat, start: nat, q: nat, cm: ChunkMap): (v: nat)
    requires n > 0 && q > 0
    ensures v < n
  {
    (start + cm.chunkIdx / q % n) % n
  }

  /** The base needle it derives from the entry, in 64-bit arithmetic. */
  function EntryBase(n: nat, q: nat, cm: ChunkMap): (b: nat)
    requires n > 0 && q > 0
    ensures b < U64
  {
    (cm.needleId - (cm.chunkIdx / q / n * q + cm.chunkIdx % q)) % U64
  }

  /** The first nonzero base derived for volume v, or zero. */
  function FirstBase(chunks: seq<ChunkMap>, n: nat, start: nat, q: nat, v: nat): nat
    requires n > 0 && q > 0
  {
    if chunks == [] then 0
    else if EntryVolume(n, start, q, chunks[0]) == v && EntryBase(n, q, chunks[0]) != 0 then EntryBase(n, q, chunks[0])
    else FirstBase(chunks[1..], n, start, q, v)
  }

  method RebuildKeys(chunks: seq<ChunkMap>, n: nat, start: nat, q: nat) returns (keys: seq<nat>)
    requires n > 0 && q > 0
    ensures |keys| == n && forall v :: 0 <= v < n ==> keys[v] == FirstBase(chunks, n, start, q, v)
  {
    var newKeys := new nat[n](_ => 0);
    assert chunks[0..] == chunks;
    for k := 0 to |chunks|
      invariant forall v :: 0 <= v < n ==>
        FirstBase(chunks, n, start, q, v) ==
          if newKeys[v] != 0 then newKeys[v] else FirstBase(chunks[k..], n, start, q, v)
    {
      var v := EntryVolume(n, start, q, chunks[k]);
      assert chunks[k..][1..] == chunks[k + 1..];
      if newKeys[v] == 0 {
        newKeys[v] := EntryBase(n, q, chunks[k]);
      }
    }
    keys := newKeys[..];
  }

  // ------------------------------------------------------------ tables published for known keys

  /** The needle of the chunk with index i under the base needles `keys`. */
  function NeedleAt(g: Geometry, keys: seq<nat>, i: nat): nat
    requires g.Valid() && |keys| == g.volumes
  {
    (keys[g.Volume(i * g.chunk)] + g.VolumeChunk(i * g.chunk)) % U64
  }

  ghost predicate PublishedBy(g: Geometry, keys: seq<nat>, chunks: seq<ChunkMap>)
    requires g.Valid() && |keys| == g.volumes
  {
    forall k :: 0 <= k < |chunks| ==> chunks[k].needleId == NeedleAt(g, keys, chunks[k].chunkIdx)
  }

  /** Some entry of the table lies on volume v. */
  ghost predicate Touches(g: Geometry, chunks: seq<ChunkMap>, v: nat)
    requires g.Valid()
  {
    exists k :: 0 <= k < |chunks| && g.Volume(chunks[k].chunkIdx * g.chunk) == v
  }

  /** With aligned units the rebuilding loop and the addressing agree on an entry. */
  lemma EntryAgrees(g: Geometry, keys: seq<nat>, cm: ChunkMap)
    requires g.Valid() && g.Aligned() && |keys| == g.volumes && (forall v :: 0 <= v < |keys| ==> keys[v] < U64)
    requires cm.needleId == NeedleAt(g, keys, cm.chunkIdx)
    ensures EntryVolume(g.volumes, g.start, g.PerUnit(), cm) == g.Volume(cm.chunkIdx * g.chunk)
    ensures EntryBase(g.volumes, g.PerUnit(), cm) == keys[g.Volume(cm.chunkIdx * g.chunk)]
  {
    var offset := cm.chunkIdx * g.chunk;
    DivUnique(offset, g.chunk, cm.chunkIdx, 0);
    AlignedSlot(g, offset);
    SubtractWraps(keys[g.Volume(offset)], g.VolumeChunk(offset));
  }

  lemma SubtractWraps(key: nat, x: int)
    requires key < U64
    ensures ((key + x) % U64 - x) % U64 == key
  {
  }

  /** A touched volume gets its base needle back; the others get zero. */
  lemma {:induction false} RebuiltKey(g: Geometry, keys: seq<nat>, chunks: seq<ChunkMap>, v: nat)
    requires g.Valid() && g.Aligned() && |keys| == g.volumes && (forall v :: 0 <= v < |keys| ==> keys[v] < U64)
    requires PublishedBy(g, keys, chunks) && v < g.volumes
    ensures FirstBase(chunks, g.volumes, g.start, g.PerUnit(), v) == if Touches(g, chunks, v) then keys[v] else 0
  {
    if chunks != [] {
      EntryAgrees(g, keys, chunks[0]);
      RebuiltKey(g, keys, chunks[1..], v);
      if g.Volume(chunks[0].chunkIdx * g.chunk) != v && Touches(g, chunks, v) {
        var k :| 0 <= k < |chunks| && g.Volume(chunks[k].chunkIdx * g.chunk) == v;
        assert chunks[1..][k - 1] == chunks[k];
      }
    }
  }

  /** The reload restores every base exactly when each volume is touched or has base zero. */
  lemma ReloadRoundTrip(g: Geometry, keys: seq<nat>, chunks: seq<ChunkMap>)
    requires g.Valid() && g.Aligned() && |keys| == g.volumes && (forall v :: 0 <= v < |keys| ==> keys[v] < U64)
    requires PublishedBy(g, keys, chunks)
    ensures (forall v :: 0 <= v < g.volumes ==> FirstBase(chunks, g.volumes, g.start, g.PerUnit(), v) == keys[v])
       <==> (forall v :: 0 <= v < g.volumes ==> keys[v] == 0 || Touches(g, chunks, v))
  {
    forall v | 0 <= v < g.volumes
      ensures FirstBase(chunks, g.volumes, g.start, g.PerUnit(), v) == keys[v] <==>
        keys[v] == 0 || Touches(g, chunks, v)
    {
      RebuiltKey(g, keys, chunks, v);
    }
  }

  /** A table that lists its chunks in order touches the volumes whose first unit it reaches. */
  lemma DenseTableTouches(g: Geometry, chunks: seq<ChunkMap>, rank: nat)
    requires g.Valid() && g.Aligned() && rank < g.volumes
    requires forall k :: 0 <= k < |chunks| ==> chunks[k].chunkIdx == k
    ensures Touches(g, chunks, g.Rotated(rank)) <==> rank * g.PerUnit() < |chunks|
  {
    var q := g.PerUnit();
    MulMonotone(0, rank, 0, q);
    if rank * q < |chunks| {
      var k := rank * q;
      DivUnique(k * g.chunk, g.chunk, k, 0);
      AlignedSlot(g, k * g.chunk);
      DivUnique(k, q, rank, 0);
      DivUnique(rank, g.volumes, 0, rank);
      assert g.Volume(chunks[k].chunkIdx * g.chunk) == g.Rotated(rank);
    } else if Touches(g, chunks, g.Rotated(rank)) {
      var k :| 0 <= k < |chunks| && g.Volume(chunks[k].chunkIdx * g.chunk) == g.Rotated(rank);
      NotYetReached(g, k, rank);
      assert false;
    }
  }

  lemma NotYetReached(g: Geometry, k: nat, rank: nat)
    requires g.Valid() && g.Aligned() && rank < g.volumes && k < rank * g.PerUnit()
    ensures g.Volume(k * g.chunk) != g.Rotated(rank)
  {
    var q := g.PerUnit();
    DivUnique(k * g.chunk, g.chunk, k, 0);
    AlignedSlot(g, k * g.chunk);
    var u := k / q;
    DivBound(k, q);
    if u >= rank { MulMonotone(rank, u, q, q); assert false; }
    DivUnique(u, g.volumes, 0, u);
    RotationIsInjective(g, u, rank);
  }

  // ------------------------------------------------------------ exactly when reloading works

  /** The table of the first `count` chunks (volume ids and sizes play no role here). */
  ghost function Table(g: Geometry, keys: seq<nat>, count: nat): (t: seq<ChunkMap>)
    requires g.Valid() && |keys| == g.volumes
    ensures |t| == count
  {
    seq(count, k requires k >= 0 => ChunkMap(k, 0, NeedleAt(g, keys, k), 0))
  }

  ghost predicate Reloads(g: Geometry, keys: seq<nat>, count: nat)
    requires g.Valid() && |keys| == g.volumes
  {
    forall v :: 0 <= v < g.volumes ==>
      FirstBase(Table(g, keys, count), g.volumes, g.start, g.PerUnit(), v) == keys[v]
  }

  ghost predicate AreBases(keys: seq<nat>) {
    forall v :: 0 <= v < |keys| ==> 0 < keys[v] < U64
  }

  lemma AlignedReloads(g: Geometry, keys: seq<nat>, count: nat)
    requires g.Valid() && g.Aligned() && |keys| == g.volumes && AreBases(keys)
    requires (g.volumes - 1) * g.PerUnit() < count
    ensures Reloads(g, keys, count)
  {
    var t := Table(g, keys, count);
    forall v | 0 <= v < g.volumes
      ensures Touches(g, t, v)
    {
      var rank := RankOf(g, v);
      DenseTableTouches(g, t, rank);
      MulMonotone(rank, g.volumes - 1, g.PerUnit(), g.PerUnit());
    }
    ReloadRoundTrip(g, keys, t);
  }

  /** Every volume has a rank. */
  lemma RankOf(g: Geometry, v: nat) returns (rank: nat)
    requires g.Valid() && v < g.volumes
    ensures rank < g.volumes && g.Rotated(rank) == v
  {
    var n, s := g.volumes, g.start % g.volumes;
    rank := if v >= s then v - s else v + n - s;
    var q := g.start / n;
    assert g.start == q * n + s;
    if v >= s {
      DivUnique(g.start + rank, n, q, v);
    } else {
      assert (q + 1) * n == q * n + n;
      DivUnique(g.start + rank, n, q + 1, v);
    }
  }

  /** A single volume reloads even with misaligned units: its first entry is its base. */
  lemma SingleVolumeReloads(g: Geometry, keys: seq<nat>, count: nat)
    requires g.Valid() && g.volumes == 1 && |keys| == 1 && AreBases(keys) && count > 0
    ensures Reloads(g, keys, count)
  {
    var t := Table(g, keys, count);
    FirstUnit(g, 0);
    DivUnique(0, g.chunk, 0, 0);
    DivUnique(0, g.PerUnit(), 0, 0);
    assert t[0].needleId == NeedleAt(g, keys, 0) == keys[0];
    assert EntryBase(1, g.PerUnit(), t[0]) == keys[0];
  }

  /** With misaligned units the base derived for the second volume belongs to the first. */
  lemma MisalignedReload(g: Geometry, keys: seq<nat>, count: nat)
    requires g.Valid() && !g.Aligned() && g.stripe > g.chunk && g.volumes >= 2 && g.stripe < OFFSET_LIMIT
    requires |keys| == g.volumes && (forall v :: 0 <= v < |keys| ==> keys[v] == 1)
    requires g.PerUnit() < count
    ensures FirstBase(Table(g, keys, count), g.volumes, g.start, g.PerUnit(), g.Rotated(1)) == 1 + g.PerUnit()
  {
    var q, t := g.PerUnit(), Table(g, keys, count);
    SkipToUnit(g, t, 0);
    assert t[0..] == t && t[q..][0] == t[q];
    CrossUnitNeedle(g, keys);
    SecondUnitEntry(g.volumes, g.start, q, t[q]);
  }

  lemma SecondUnitEntry(n: nat, start: nat, q: nat, cm: ChunkMap)
    requires n >= 2 && q > 0 && cm.chunkIdx == q && cm.needleId < U64
    ensures EntryVolume(n, start, q, cm) == (start + 1) % n && EntryBase(n, q, cm) == cm.needleId
  {
    DivUnique(q, q, 1, 0);
    DivUnique(1, n, 0, 1);
    assert 0 * q == 0;
  }

  /** The last chunk that begins in the first unit lies beyond the units the table counts. */
  lemma CrossUnitNeedle(g: Geometry, keys: seq<nat>)
    requires g.Valid() && !g.Aligned() && g.stripe > g.chunk && g.stripe < OFFSET_LIMIT
    requires |keys| == g.volumes && (forall v :: 0 <= v < |keys| ==> keys[v] == 1)
    ensures NeedleAt(g, keys, g.PerUnit()) == 1 + g.PerUnit() < U64
  {
    var q := g.PerUnit();
    MisalignedBounds(g);
    DivMonotone(g.chunk, g.stripe, g.chunk);
    DivUnique(g.chunk, g.chunk, 1, 0);
    FirstUnit(g, q * g.chunk);
    DivUnique(q * g.chunk, g.chunk, q, 0);
    DivAtMost(g.stripe, g.chunk);
  }

  /** The entries of the first unit are not assigned to the second volume. */
  lemma SkipToUnit(g: Geometry, t: seq<ChunkMap>, k: nat)
    requires g.Valid() && g.volumes >= 2 && k <= g.PerUnit() <= |t|
    requires forall i :: 0 <= i < |t| ==> t[i].chunkIdx == i
    ensures FirstBase(t[k..], g.volumes, g.start, g.PerUnit(), g.Rotated(1))
      == FirstBase(t[g.PerUnit()..], g.volumes, g.start, g.PerUnit(), g.Rotated(1))
    decreases g.PerUnit() - k
  {
    if k < g.PerUnit() {
      DivUnique(k, g.PerUnit(), 0, k);
      DivUnique(0, g.volumes, 0, 0);
      RotationIsInjective(g, 0, 1);
      assert t[k..][0] == t[k] && t[k..][1..] == t[k + 1..];
      SkipToUnit(g, t, k + 1);
    }
  }

  /**
   * A table that reaches every volume reloads to the same nonzero bases, whatever they are,
   * exactly when units are aligned or there is only one volume.
   */
  lemma ReloadCondition(g: Geometry, count: nat)
    requires g.Valid() && g.chunk <= g.stripe < OFFSET_LIMIT && (g.volumes - 1) * g.PerUnit() < count
    ensures (forall keys: seq<nat> :: |keys| == g.volumes && AreBases(keys) ==> Reloads(g, keys, count))
       <==> g.Aligned() || g.volumes == 1
  {
    if g.Aligned() || g.volumes == 1 {
      forall keys: seq<nat> | |keys| == g.volumes && AreBases(keys)
        ensures Reloads(g, keys, count)
      {
        if g.Aligned() { AlignedReloads(g, keys, count); } else { SingleVolumeReloads(g, keys, count); }
      }
    } else {
      var ones: seq<nat> := seq(g.volumes, _ => 1);
      assert g.stripe != g.chunk by { DivUnique(g.chunk, g.chunk, 1, 0); }
      MulMonotone(1, g.volumes - 1, g.PerUnit(), g.PerUnit());
      MisalignedReload(g, ones, count);
      assert AreBases(ones) && !Reloads(g, ones, count);
    }
  }
}
