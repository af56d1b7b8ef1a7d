/**
 * The RAID0 arithmetic of a striped file: which volume an offset falls on, and which chunk of
 * that volume it is. Files may span any number of rounds over the volumes.
 */
module Striping {
  import opened Arithmetic

  /** Chunk and stripe sizes in bytes, the number of volumes and the index of the first one. */
  datatype Geometry = Geometry(volumes: nat, start: nat, chunk: nat, stripe: nat) {
    predicate Valid() {
      volumes > 0 && chunk > 0 && stripe > 0
    }

    predicate Aligned()
      requires Valid()
    {
      stripe % chunk == 0
    }

    /** Chunks per stripe unit, at least one. */
    function PerUnit(): (q: nat)
      requires Valid()
      ensures q > 0
    {
      if stripe / chunk == 0 then 1 else stripe / chunk
    }

    function Rotated(rank: nat): (v: nat)
      requires Valid()
      ensures v < volumes
    {
      (start + rank) % volumes
    }

    /** The index of the volume that holds the offset. */
    function Volume(offset: nat): (v: nat)
      requires Valid()
      ensures v < volumes
    {
      Rotated(offset / stripe % volumes)
    }

    /** The chunk within that volume, counted over all rounds. */
    function VolumeChunk(offset: nat): int
      requires Valid()
    {
      offset / stripe / volumes * PerUnit() + offset % stripe / chunk
    }
  }

  predicate SameSlot(g: Geometry, o1: nat, o2: nat)
    requires g.Valid()
  {
    g.Volume(o1) == g.Volume(o2) && g.VolumeChunk(o1) == g.VolumeChunk(o2)
  }

  predicate SameChunk(g: Geometry, o1: nat, o2: nat)
    requires g.Valid()
  {
    o1 / g.chunk == o2 / g.chunk
  }

  /** The rotation by the start index permutes the volumes. */
  lemma RotationIsInjective(g: Geometry, r1: nat, r2: nat)
    requires g.Valid() && r1 <= r2 < g.volumes
    ensures g.Rotated(r1) == g.Rotated(r2) ==> r1 == r2
  {
    var n, a, b := g.volumes, g.start + r1, g.start + r2;
    if a % n == b % n {
      assert a == a / n * n + a % n && b == b / n * n + b % n;
      assert (b / n - a / n) * n == b / n * n - a / n * n;
      DivMonotone(a, b, n);
      MulAtLeast(b / n - a / n, n);
    }
  }

  // ------------------------------------------------------------ chunk size divides stripe size

  /** With aligned units everything depends on the global chunk number alone. */
  lemma AlignedSlot(g: Geometry, offset: nat)
    requires g.Valid() && g.Aligned()
    ensures g.PerUnit() == g.stripe / g.chunk
    ensures offset / g.stripe == offset / g.chunk / g.PerUnit()
    ensures offset % g.stripe / g.chunk == offset / g.chunk % g.PerUnit()
  {
    var c, s, q := g.chunk, g.stripe, g.stripe / g.chunk;
    assert s == q * c;
    assert q > 0;
    DivDiv(offset, c, q);
  }

  /** The global chunk with a given rank and volume chunk. */
  function GlobalChunk(g: Geometry, rank: nat, volumeChunk: int): int
    requires g.Valid()
  {
    (volumeChunk / g.PerUnit() * g.volumes + rank) * g.PerUnit() + volumeChunk % g.PerUnit()
  }

  lemma SlotDeterminesChunk(g: Geometry, offset: nat)
    requires g.Valid() && g.Aligned()
    ensures GlobalChunk(g, offset / g.stripe % g.volumes, g.VolumeChunk(offset)) == offset / g.chunk
  {
    AlignedSlot(g, offset);
    var c, q := offset / g.chunk, g.PerUnit();
    var unit := c / q;
    DivUnique(g.VolumeChunk(offset), q, unit / g.volumes, c % q);
    assert unit == unit / g.volumes * g.volumes + unit % g.volumes;
    assert c == unit * q + c % q;
  }

  /** Two offsets share a slot exactly when they share a chunk. */
  lemma AlignedIsExact(g: Geometry, o1: nat, o2: nat)
    requires g.Valid() && g.Aligned()
    ensures SameSlot(g, o1, o2) <==> SameChunk(g, o1, o2)
  {
    AlignedSlot(g, o1);
    AlignedSlot(g, o2);
    var r1, r2 := o1 / g.stripe % g.volumes, o2 / g.stripe % g.volumes;
    if r1 <= r2 { RotationIsInjective(g, r1, r2); } else { RotationIsInjective(g, r2, r1); }
    SlotDeterminesChunk(g, o1);
    SlotDeterminesChunk(g, o2);
  }

  // ------------------------------------------------------------ and when it does not

  /** Below the limit, slots and chunks correspond one to one. */
  ghost predicate ExactBelow(g: Geometry, limit: nat)
    requires g.Valid()
  {
    forall o1: nat, o2: nat :: o1 < limit && o2 < limit ==> (SameSlot(g, o1, o2) <==> SameChunk(g, o1, o2))
  }

  /** The first offset at which misaligned units go wrong. */
  function FirstSplit(g: Geometry): nat
    requires g.Valid()
  {
    if g.volumes >= 2 || g.stripe < g.chunk then g.stripe else (g.stripe / g.chunk + 1) * g.chunk
  }

  /** Within the first stripe unit the slot is the chunk. */
  lemma FirstUnit(g: Geometry, offset: nat)
    requires g.Valid() && offset < g.stripe
    ensures g.Volume(offset) == g.Rotated(0) && g.VolumeChunk(offset) == offset / g.chunk
  {
    DivUnique(offset, g.stripe, 0, offset);
    DivUnique(0, g.volumes, 0, 0);
    assert 0 * g.PerUnit() == 0;
  }

  /** In the second unit, up to the first chunk boundary. */
  lemma SecondUnit(g: Geometry, offset: nat)
    requires g.Valid() && g.stripe <= offset < 2 * g.stripe && offset < g.stripe + g.chunk
    ensures g.volumes >= 2 ==> g.Volume(offset) == g.Rotated(1)
    ensures g.volumes == 1 ==> g.VolumeChunk(offset) == g.PerUnit()
  {
    DivUnique(offset, g.stripe, 1, offset - g.stripe);
    DivUnique(offset - g.stripe, g.chunk, 0, offset - g.stripe);
    if g.volumes >= 2 { DivUnique(1, g.volumes, 0, 1); } else { DivUnique(1, g.volumes, 1, 0); }
  }

  lemma MisalignedBounds(g: Geometry)
    requires g.Valid() && !g.Aligned()
    ensures g.stripe / g.chunk * g.chunk < g.stripe < (g.stripe / g.chunk + 1) * g.chunk
    ensures g.stripe > g.chunk ==> (g.stripe / g.chunk + 1) * g.chunk < 2 * g.stripe
  {
    DivBound(g.stripe, g.chunk);
    assert g.stripe == g.stripe / g.chunk * g.chunk + g.stripe % g.chunk;
  }

  lemma OneVolumePrefix(g: Geometry, offset: nat)
    requires g.Valid() && !g.Aligned() && g.volumes == 1 && g.stripe > g.chunk && offset < FirstSplit(g)
    ensures g.VolumeChunk(offset) == offset / g.chunk
  {
    MisalignedBounds(g);
    if offset < g.stripe {
      FirstUnit(g, offset);
    } else {
      SecondUnit(g, offset);
      DivUnique(offset, g.chunk, g.stripe / g.chunk, offset - g.stripe / g.chunk * g.chunk);
      DivMonotone(g.chunk, g.stripe, g.chunk);
      DivUnique(g.chunk, g.chunk, 1, 0);
    }
  }

  lemma ExactBeforeSplit(g: Geometry, o1: nat, o2: nat)
    requires g.Valid() && !g.Aligned() && o1 < FirstSplit(g) && o2 < FirstSplit(g)
    ensures SameSlot(g, o1, o2) <==> SameChunk(g, o1, o2)
  {
    if g.volumes >= 2 || g.stripe < g.chunk {
      FirstUnit(g, o1);
      FirstUnit(g, o2);
    } else {
      assert g.stripe != g.chunk by { DivUnique(g.chunk, g.chunk, 1, 0); }
      OneVolumePrefix(g, o1);
      OneVolumePrefix(g, o2);
    }
  }

  /** A pair at the first split: one chunk in two slots, or two chunks in one slot. */
  lemma SplitPair(g: Geometry) returns (o1: nat, o2: nat)
    requires g.Valid() && !g.Aligned()
    ensures o1 <= FirstSplit(g) && o2 <= FirstSplit(g)
    ensures SameSlot(g, o1, o2) <==> !SameChunk(g, o1, o2)
  {
    MisalignedBounds(g);
    var q := g.stripe / g.chunk;
    assert g.stripe != g.chunk by { DivUnique(g.chunk, g.chunk, 1, 0); }
    if g.volumes >= 2 || g.stripe < g.chunk {
      o1, o2 := g.stripe - 1, g.stripe;
      FirstUnit(g, o1);
      SecondUnit(g, o2);
      DivUnique(o1, g.chunk, q, o1 - q * g.chunk);
      if g.volumes >= 2 {
        RotationIsInjective(g, 0, 1);
      } else {
        DivUnique(g.stripe, g.chunk, 0, g.stripe);
      }
    } else {
      o1, o2 := q * g.chunk, (q + 1) * g.chunk;
      DivMonotone(g.chunk, g.stripe, g.chunk);
      DivUnique(g.chunk, g.chunk, 1, 0);
      FirstUnit(g, o1);
      SecondUnit(g, o2);
      DivUnique(o1, g.chunk, q, 0);
      DivUnique(o2, g.chunk, q + 1, 0);
    }
  }

  /** Slots and chunks correspond exactly when units are aligned, or no split is reached. */
  lemma ExactnessCondition(g: Geometry, limit: nat)
    requires g.Valid()
    ensures ExactBelow(g, limit) <==> g.Aligned() || limit <= FirstSplit(g)
  {
    if g.Aligned() {
      forall o1: nat, o2: nat | o1 < limit && o2 < limit
        ensures SameSlot(g, o1, o2) <==> SameChunk(g, o1, o2)
      {
        AlignedIsExact(g, o1, o2);
      }
    } else if limit <= FirstSplit(g) {
      forall o1: nat, o2: nat | o1 < limit && o2 < limit
        ensures SameSlot(g, o1, o2) <==> SameChunk(g, o1, o2)
      {
        ExactBeforeSplit(g, o1, o2);
      }
    } else {
      var o1, o2 := SplitPair(g);
      assert o1 < limit && o2 < limit;
    }
  }
}
