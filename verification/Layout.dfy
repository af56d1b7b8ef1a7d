/** Where the bytes of a file live: from a file offset to a needle on a volume. */
module Layout {
  import opened Arithmetic
  import opened Basics
  import opened Striping

  const OFFSET_LIMIT: nat := 0x8000_0000_0000_0000
  const CHUNK_SIZE: nat := 0x10_0000

  const INLINE: nat := 0
  const FLAT: nat := 1
  const STRIPE: nat := 2
  const WIDESTRIPE: nat := 3

  /** One entry of a published chunk table. */
  datatype ChunkMap = ChunkMap(chunkIdx: nat, volumeId: nat, needleId: nat, size: nat)

  /** What locating an offset yields; NotLocated is -EINVAL. */
  datatype Location = Located(volumeId: nat, needleId: nat) | NotLocated

  /** The addressing fields of an inode; an absent array is an empty one, except for the keys. */
  datatype Addressing = Addressing(
    placement: nat, chunkSize: nat, volumeId: nat, fileKey: nat, chunks: seq<ChunkMap>,
    volumeIds: seq<nat>, keys: Option<seq<nat>>, stripeSize: nat, start: nat)
  {
    predicate IsStriped() {
      placement == STRIPE || placement == WIDESTRIPE
    }

    /** The per-volume base needles, if present, are one for each volume. */
    predicate KeysMatch() {
      keys.Some? ==> |keys.value| == |volumeIds|
    }

    function Chunk(): (c: nat)
      ensures c > 0
    {
      if chunkSize != 0 then chunkSize else CHUNK_SIZE
    }

    function Shape(): (g: Geometry)
      requires |volumeIds| > 0
      ensures g.Valid()
    {
      Geometry(|volumeIds|, start, Chunk(), if stripeSize != 0 then stripeSize else Chunk())
    }

    function Base(v: nat): nat
      requires KeysMatch() && v < |volumeIds|
    {
      if keys.Some? then keys.value[v] else fileKey
    }

    /** powerfs_locate_chunk. */
    function Locate(offset: nat): Location
      requires KeysMatch()
    {
      var idx := offset / Chunk();
      if placement == INLINE then NotLocated
      else if idx < |chunks| && !IsStriped() && chunks[idx].volumeId != 0 && chunks[idx].needleId != 0 then
        Located(chunks[idx].volumeId, chunks[idx].needleId)
      else if IsStriped() && |volumeIds| > 0 then
        var v := Shape().Volume(offset);
        Located(volumeIds[v], (Base(v) + Shape().VolumeChunk(offset)) % U64)
      else if volumeId == 0 || fileKey == 0 then NotLocated
      else Located(volumeId, (fileKey + idx) % U64)
    }
  }

  /** Volume chunk numbers of real offsets do not wrap around. */
  lemma VolumeChunkBound(g: Geometry, offset: nat)
    requires g.Valid()
    ensures 0 <= g.VolumeChunk(offset) <= offset
  {
    var u := offset / g.stripe;
    DivAtMost(offset % g.stripe, g.chunk);
    DivAtMost(u, g.volumes);
    DivAtMost(g.stripe, g.chunk);
    MulMonotone(u / g.volumes, u, g.PerUnit(), g.stripe);
    assert offset == u * g.stripe + offset % g.stripe;
  }

  lemma WrapIsInjective(base: nat, x: nat, y: nat)
    requires x < U64 && y < U64
    ensures (base + x) % U64 == (base + y) % U64 <==> x == y
  {
  }

  /** On a striped file with distinct volumes, needles are slots. */
  lemma NeedlesAreSlots(a: Addressing, o1: nat, o2: nat)
    requires a.KeysMatch() && a.IsStriped() && |a.volumeIds| > 0 && Distinct(a.volumeIds)
    requires o1 < OFFSET_LIMIT && o2 < OFFSET_LIMIT
    ensures a.Locate(o1) == a.Locate(o2) <==> SameSlot(a.Shape(), o1, o2)
  {
    var g := a.Shape();
    VolumeChunkBound(g, o1);
    VolumeChunkBound(g, o2);
    var v1, v2 := g.Volume(o1), g.Volume(o2);
    if v1 == v2 {
      WrapIsInjective(a.Base(v1), g.VolumeChunk(o1), g.VolumeChunk(o2));
    } else {
      assert a.volumeIds[v1] != a.volumeIds[v2];
    }
  }

  /** Two offsets reach the same needle exactly when they lie in the same chunk. */
  ghost predicate AddressesChunks(a: Addressing)
    requires a.KeysMatch()
  {
    forall o1: nat, o2: nat :: o1 < OFFSET_LIMIT && o2 < OFFSET_LIMIT ==>
      (a.Locate(o1) == a.Locate(o2) <==> o1 / a.Chunk() == o2 / a.Chunk())
  }

  /**
   * Striped addressing is right exactly when the chunk size divides the stripe size, or the stripe
   * is so large that no offset reaches its end.
   */
  lemma StripedAddressing(a: Addressing)
    requires a.KeysMatch() && a.IsStriped() && |a.volumeIds| > 0 && Distinct(a.volumeIds)
    ensures AddressesChunks(a) <==> a.Shape().Aligned() || OFFSET_LIMIT <= FirstSplit(a.Shape())
  {
    var g := a.Shape();
    ExactnessCondition(g, OFFSET_LIMIT);
    forall o1: nat, o2: nat | o1 < OFFSET_LIMIT && o2 < OFFSET_LIMIT
      ensures a.Locate(o1) == a.Locate(o2) <==> SameSlot(g, o1, o2)
      ensures SameChunk(g, o1, o2) <==> o1 / a.Chunk() == o2 / a.Chunk()
    {
      NeedlesAreSlots(a, o1, o2);
    }
    if !(g.Aligned() || OFFSET_LIMIT <= FirstSplit(g)) {
      var o1: nat, o2: nat :|
        o1 < OFFSET_LIMIT && o2 < OFFSET_LIMIT && !(SameSlot(g, o1, o2) <==> SameChunk(g, o1, o2));
      assert !(a.Locate(o1) == a.Locate(o2) <==> o1 / a.Chunk() == o2 / a.Chunk());
    } else {
      forall o1: nat, o2: nat | o1 < OFFSET_LIMIT && o2 < OFFSET_LIMIT
        ensures a.Locate(o1) == a.Locate(o2) <==> o1 / a.Chunk() == o2 / a.Chunk()
      {
        assert SameSlot(g, o1, o2) <==> SameChunk(g, o1, o2);
      }
    }
  }

  /** A flat file whose chunk table is absent is addressed chunk by chunk from its file key. */
  lemma FlatAddressing(a: Addressing)
    requires a.KeysMatch() && a.placement == FLAT && a.chunks == [] && a.volumeId != 0 && a.fileKey != 0
    ensures AddressesChunks(a)
  {
    forall o1: nat, o2: nat | o1 < OFFSET_LIMIT && o2 < OFFSET_LIMIT
      ensures a.Locate(o1) == a.Locate(o2) <==> o1 / a.Chunk() == o2 / a.Chunk()
    {
      DivAtMost(o1, a.Chunk());
      DivAtMost(o2, a.Chunk());
      WrapIsInjective(a.fileKey, o1 / a.Chunk(), o2 / a.Chunk());
    }
  }
}
