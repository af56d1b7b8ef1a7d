/** powerfs_apply_layout_to_inode: merge a layout sent by the server into an inode. */
module InodeLayout {
  import opened Arithmetic
  import opened Basics
  import opened Striping
  import opened Layout
  import opened Reload
  import opened Publish

  const EC: nat := 2
  const INLINE_MAX_SIZE: nat := 8192

  /** A parsed layout; an optional part that the reply did not carry is None. */
  datatype FileLayout = FileLayout(
    placement: Option<nat>, reliability: Option<nat>, chunkSize: nat, inlineMaxSize: nat,
    inlineData: Option<seq<nat>>, stripeSize: nat, stripeCount: nat, start: nat, volumeIds: seq<nat>,
    ecDataShards: nat, ecParityShards: nat, replicas: Option<seq<ChunkMap>>, chunks: Option<seq<ChunkMap>>)

  predicate StripedPlacement(p: nat) {
    p == STRIPE || p == WIDESTRIPE
  }

  /** The volume list of the layout is a strictly shorter list of volumes the inode already has. */
  predicate Preserves(stripeSize: nat, volumeIds: seq<nat>, l: FileLayout) {
    && stripeSize > 0 && stripeSize == l.stripeSize
    && |volumeIds| > |l.volumeIds| > 0
    && forall i :: 0 <= i < |l.volumeIds| ==> l.volumeIds[i] in volumeIds
  }

  /** The inline limit: the server's, else the present one, else the default. */
  function NewInlineMax(present: nat, l: FileLayout): (m: nat)
    ensures m > 0
  {
    if l.inlineMaxSize > 0 then l.inlineMaxSize else if present == 0 then INLINE_MAX_SIZE else present
  }

  /** The explicit chunk table afterwards: only flat files keep one. */
  function NewTable(present: seq<ChunkMap>, l: FileLayout, placement: nat, reliability: nat): seq<ChunkMap> {
    if l.chunks.None? || reliability == EC then present
    else if placement == FLAT then l.chunks.value
    else if StripedPlacement(placement) then []
    else present
  }

  function UnitOf(stripeSize: nat, chunkSize: nat): nat {
    var stripe := if stripeSize != 0 then stripeSize else chunkSize;
    if stripe != 0 then stripe / (if chunkSize != 0 then chunkSize else CHUNK_SIZE) else 1
  }

  function Or<T>(sent: Option<T>, present: T): T {
    if sent.Some? then sent.value else present
  }

  class Inode {
    var placement: nat
    var reliability: nat
    var chunkSize: nat
    var inlineMaxSize: nat
    var inlineData: Option<seq<nat>>
    var inlineDirty: bool
    var volumeId: nat
    var fileKey: nat
    var stripeSize: nat
    var stripeCount: nat
    var start: nat
    var volumeIds: seq<nat>
    var keys: Option<seq<nat>>
    var ecDataShards: nat
    var ecParityShards: nat
    var replicas: seq<ChunkMap>
    var ecChunks: seq<ChunkMap>
    var chunks: seq<ChunkMap>

    ghost function View(): Addressing
      reads this
    {
      Addressing(placement, chunkSize, volumeId, fileKey, chunks, volumeIds, keys, stripeSize, start)
    }

    /** The layout is older than what the inode holds and is dropped as a whole. */
    predicate Stale(l: FileLayout)
      reads this
    {
      l.placement.Some? &&
      var p := l.placement.value;
      || (placement == INLINE && inlineDirty && p != INLINE)
      || (placement != INLINE && (volumeId != 0 || fileKey != 0) && p == INLINE)
      || (StripedPlacement(placement) && |volumeIds| > 0 && (p == FLAT || p == INLINE))
    }

    /** Chunks per unit as the rebuilding code computes it; zero switches rebuilding off. */
    function RebuildUnit(): nat
      reads this`stripeSize, this`chunkSize
    {
      UnitOf(stripeSize, chunkSize)
    }

    /** The base needles are the ones rebuilt from the table. */
    ghost predicate KeysFrom(table: seq<ChunkMap>)
      reads this`keys, this`volumeIds, this`start, this`stripeSize, this`chunkSize
    {
      && keys.Some? && |keys.value| == |volumeIds| && |volumeIds| > 0 && RebuildUnit() > 0
      && forall v :: 0 <= v < |volumeIds| ==> keys.value[v] == FirstBase(table, |volumeIds|, start, RebuildUnit(), v)
    }

    /** The plain values: what was sent, else what was there. */
    twostate predicate ScalarsApplied(l: FileLayout)
      reads this
    {
      && placement == Or(l.placement, old(placement)) && reliability == Or(l.reliability, old(reliability))
      && chunkSize == (if l.chunkSize > 0 then l.chunkSize else old(chunkSize))
      && inlineMaxSize == NewInlineMax(old(inlineMaxSize), l)
    }

    /** Inline data: dropped with the placement, else the server's only if there is nothing unsaved. */
    twostate predicate InlineApplied(l: FileLayout)
      reads this
    {
      if placement != INLINE then inlineData == None && inlineDirty == (old(inlineDirty) && old(inlineData) == None)
      else
        && inlineDirty == old(inlineDirty)
        && inlineData == if l.inlineData.Some? && !inlineDirty then l.inlineData else old(inlineData)
    }

    /** Stripe arrays: preserved, taken from the layout with base needles rebuilt if possible, or dropped. */
    twostate predicate StripesApplied(l: FileLayout)
      reads this
    {
      if !StripedPlacement(placement) then
        stripeSize == 0 && stripeCount == 0 && volumeIds == [] && keys == None && start == old(start)
      else if old(Preserves(stripeSize, volumeIds, l)) then
        unchanged(this`stripeSize, this`stripeCount, this`start, this`volumeIds, this`keys)
      else
        && stripeSize == l.stripeSize && stripeCount == l.stripeCount && start == l.start && volumeIds == l.volumeIds
        && (if l.chunks.Some? && Rebuilds(false) then KeysFrom(l.chunks.value) else keys == old(keys))
    }

    /** Chunk lists and shard counts, each to the field its reliability and placement call for. */
    twostate predicate ListsApplied(l: FileLayout)
      reads this
    {
      && ecDataShards == (if reliability == EC then l.ecDataShards else 0)
      && ecParityShards == (if reliability == EC then l.ecParityShards else 0)
      && replicas == Or(l.replicas, old(replicas))
      && ecChunks == (if reliability == EC then Or(l.chunks, old(ecChunks)) else old(ecChunks))
      && chunks == NewTable(old(chunks), l, placement, reliability)
    }

    method ApplyScalars(l: FileLayout)
      modifies this`placement, this`reliability, this`chunkSize, this`inlineMaxSize
      ensures ScalarsApplied(l)
    {
      if l.placement.Some? {
        placement := l.placement.value;
      }
      if l.reliability.Some? {
        reliability := l.reliability.value;
      }
      if l.chunkSize > 0 {
        chunkSize := l.chunkSize;
      }
      if l.inlineMaxSize > 0 {
        inlineMaxSize := l.inlineMaxSize;
      } else if inlineMaxSize == 0 {
        inlineMaxSize := INLINE_MAX_SIZE;
      }
    }

    method IsSubset(ids: seq<nat>) returns (subset: bool)
      ensures subset <==> forall i :: 0 <= i < |ids| ==> ids[i] in volumeIds
    {
      for a := 0 to |ids|
        invariant forall i :: 0 <= i < a ==> ids[i] in volumeIds
      {
        var found := false;
        for b := 0 to |volumeIds|
          invariant found <==> ids[a] in volumeIds[..b]
        {
          if ids[a] == volumeIds[b] {
            found := true;
          }
        }
        assert volumeIds[..|volumeIds|] == volumeIds;
        if !found {
          return false;
        }
      }
      return true;
    }

    method ApplyInline(l: FileLayout)
      modifies this`inlineData, this`inlineDirty
      ensures InlineApplied(l)
    {
      if placement == INLINE && l.inlineData.Some? {
        if !inlineDirty {
          inlineData := l.inlineData;
        }
      } else if placement != INLINE && inlineData.Some? {
        inlineData, inlineDirty := None, false;
      }
    }

    /** Stripe arrays: kept, replaced, or dropped. */
    method ApplyStripe(l: FileLayout) returns (preserve: bool)
      modifies this`stripeSize, this`stripeCount, this`start, this`volumeIds, this`keys
      ensures preserve <==> StripedPlacement(placement) && old(Preserves(stripeSize, volumeIds, l))
      ensures preserve ==> unchanged(this`stripeSize, this`stripeCount, this`start, this`volumeIds, this`keys)
      ensures StripedPlacement(placement) && !preserve ==>
        && stripeSize == l.stripeSize && stripeCount == l.stripeCount && start == l.start
        && volumeIds == l.volumeIds && keys == old(keys)
      ensures !StripedPlacement(placement) ==>
        stripeSize == 0 && stripeCount == 0 && volumeIds == [] && keys == None && start == old(start)
    {
      preserve := false;
      if placement == STRIPE || placement == WIDESTRIPE {
        if stripeSize > 0 && stripeSize == l.stripeSize && |volumeIds| > |l.volumeIds| > 0 {
          preserve := IsSubset(l.volumeIds);
        }
        if !preserve {
          stripeSize, stripeCount, start, volumeIds := l.stripeSize, l.stripeCount, l.start, l.volumeIds;
        }
      } else {
        volumeIds, keys, stripeSize, stripeCount := [], None, 0, 0;
      }
    }

    /** The chunk list goes to the shard list, to the flat table, or into the base needles. */
    method ApplyChunks(l: FileLayout, preserve: bool)
      modifies this`ecChunks, this`chunks, this`keys
      ensures ecChunks == (if l.chunks.Some? && reliability == EC then l.chunks.value else old(ecChunks))
      ensures chunks == NewTable(old(chunks), l, placement, reliability)
      ensures if l.chunks.Some? && StripedPlacement(placement) && Rebuilds(preserve) then KeysFrom(l.chunks.value)
        else keys == old(keys)
    {
      if l.chunks.None? {
        return;
      }
      var table := l.chunks.value;
      if reliability == EC {
        ecChunks := table;
      } else if placement == FLAT {
        chunks := table;
      } else if placement == STRIPE || placement == WIDESTRIPE {
        if |volumeIds| > 0 && RebuildUnit() > 0 && !preserve {
          var newKeys := RebuildKeys(table, |volumeIds|, start, RebuildUnit());
          keys := Some(newKeys);
        }
        chunks := [];
      }
    }

    predicate Rebuilds(preserve: bool)
      reads this`reliability, this`volumeIds, this`stripeSize, this`chunkSize
    {
      reliability != EC && |volumeIds| > 0 && RebuildUnit() > 0 && !preserve
    }

    method ApplyArrays(l: FileLayout)
      modifies this`stripeSize, this`stripeCount, this`start, this`volumeIds, this`keys, this`ecDataShards,
        this`ecParityShards, this`replicas, this`ecChunks, this`chunks
      ensures StripesApplied(l) && ListsApplied(l)
    {
      var preserve := ApplyStripe(l);
      ecDataShards := if reliability == EC then l.ecDataShards else 0;
      ecParityShards := if reliability == EC then l.ecParityShards else 0;
      if l.replicas.Some? {
        replicas := l.replicas.value;
      }
      ApplyChunks(l, preserve);
    }

    /** Apply a layout that is not stale: the whole new state. */
    method ApplyFresh(l: FileLayout)
      requires !Stale(l)
      modifies this
      ensures volumeId == old(volumeId) && fileKey == old(fileKey)
      ensures ScalarsApplied(l) && InlineApplied(l) && StripesApplied(l) && ListsApplied(l)
    {
      ApplyScalars(l);
      ApplyInline(l);
      ApplyArrays(l);
    }

    /**
     * After the layout there will be one base needle per volume, as locating needs it. That can fail
     * only if the volume list is replaced by one of another length and the old needles stay.
     */
    predicate KeysSurvive(l: FileLayout)
      reads this
    {
      var matching := keys.Some? ==> |keys.value| == |volumeIds|;
      if Stale(l) then matching
      else if !StripedPlacement(Or(l.placement, placement)) then true
      else if Preserves(stripeSize, volumeIds, l) then matching
      else
        || keys == None || |keys.value| == |l.volumeIds|
        || (l.chunks.Some? && Or(l.reliability, reliability) != EC && |l.volumeIds| > 0
            && UnitOf(l.stripeSize, if l.chunkSize > 0 then l.chunkSize else chunkSize) > 0)
    }

    /**
     * Apply a layout. A stale one changes nothing. Local inline data that is not yet saved survives
     * any layout, a migrated file never goes back inline, and a striped file with volumes is never
     * flattened.
     */
    method ApplyLayout(l: FileLayout)
      modifies this
      ensures old(Stale(l)) ==> unchanged(this)
      ensures old(placement == INLINE && inlineDirty) ==>
        placement == INLINE && inlineDirty && inlineData == old(inlineData)
      ensures old(placement != INLINE && (volumeId != 0 || fileKey != 0)) ==> placement != INLINE
      ensures old(StripedPlacement(placement) && |volumeIds| > 0) ==> placement != FLAT && placement != INLINE
      ensures View().KeysMatch() <==> old(KeysSurvive(l))
      ensures !old(Stale(l)) && StripedPlacement(placement) && old(Preserves(stripeSize, volumeIds, l)) ==>
        View() == old(View()).(placement := placement, chunkSize := chunkSize, chunks := chunks)
      ensures !old(Stale(l)) ==> StripesApplied(l)
    {
      if !Stale(l) {
        ApplyFresh(l);
      }
    }
  }

  /** A striped layout that only says placement, stripe size and volumes. */
  function VolumesOnly(stripeSize: nat, volumeIds: seq<nat>): FileLayout {
    FileLayout(Some(STRIPE), None, 0, 0, None, stripeSize, 0, 0, volumeIds, 0, 0, None, None)
  }

  /** A third volume announced without a chunk list leaves two base needles for three volumes. */
  method GrownWithoutChunks() returns (inode: Inode)
    ensures fresh(inode) && inode.volumeIds == [7, 8, 9] && inode.keys == Some([1, 2]) && !inode.View().KeysMatch()
  {
    inode := new Inode;
    inode.placement, inode.stripeSize, inode.volumeIds, inode.keys := STRIPE, CHUNK_SIZE, [7, 8], Some([1, 2]);
    inode.inlineDirty := false;
    inode.ApplyLayout(VolumesOnly(CHUNK_SIZE, [7, 8, 9]));
  }

  // ------------------------------------------------------------ what this means for addressing

  ghost predicate LocateAlike(a: Addressing, b: Addressing)
    requires a.KeysMatch() && b.KeysMatch()
  {
    forall offset: nat :: offset < OFFSET_LIMIT ==> a.Locate(offset) == b.Locate(offset)
  }

  /** Below the smaller chunk size the two layouts agree; at it they part, within the first unit. */
  lemma ChunkSizeShows(a: Addressing, b: Addressing)
    requires a.KeysMatch() && a.IsStriped() && b.IsStriped() && a.stripeSize > 0 && |a.volumeIds| > 0
    requires b == a.(placement := b.placement, chunkSize := b.chunkSize, chunks := b.chunks)
    requires a.Chunk() < b.Chunk() && a.Chunk() < a.stripeSize && a.Chunk() < U32
    ensures a.Locate(a.Chunk()) != b.Locate(a.Chunk())
  {
    var o := a.Chunk();
    FirstUnit(a.Shape(), o);
    FirstUnit(b.Shape(), o);
    DivUnique(o, o, 1, 0);
    DivUnique(o, b.Chunk(), 0, o);
    WrapIsInjective(a.Base(a.Shape().Rotated(0)), 1, 0);
  }

  lemma BigChunksAlike(a: Addressing, b: Addressing, offset: nat)
    requires a.KeysMatch() && a.IsStriped() && b.IsStriped() && a.stripeSize > 0 && |a.volumeIds| > 0
    requires b == a.(placement := b.placement, chunkSize := b.chunkSize, chunks := b.chunks)
    requires a.stripeSize <= a.Chunk() && a.stripeSize <= b.Chunk()
    ensures a.Locate(offset) == b.Locate(offset)
  {
    var s := a.stripeSize;
    OneChunkPerUnit(s, a.Chunk(), offset);
    OneChunkPerUnit(s, b.Chunk(), offset);
  }

  lemma OneChunkPerUnit(stripe: nat, chunk: nat, offset: nat)
    requires 0 < stripe <= chunk
    ensures stripe / chunk <= 1 && offset % stripe / chunk == 0
  {
    if stripe == chunk { DivUnique(stripe, chunk, 1, 0); } else { DivUnique(stripe, chunk, 0, stripe); }
    DivUnique(offset % stripe, chunk, 0, offset % stripe);
  }

  /**
   * When the local stripe arrays are preserved, every offset is still found where it was exactly
   * if the chunk size did not change, or a chunk covers a whole stripe unit before and after.
   */
  lemma PreservedAddressing(a: Addressing, b: Addressing)
    requires a.KeysMatch() && a.IsStriped() && b.IsStriped() && a.stripeSize > 0 && |a.volumeIds| > 0
    requires b == a.(placement := b.placement, chunkSize := b.chunkSize, chunks := b.chunks)
    requires a.Chunk() < U32 && b.Chunk() < U32
    ensures LocateAlike(a, b) <==>
      a.Chunk() == b.Chunk() || (a.stripeSize <= a.Chunk() && a.stripeSize <= b.Chunk())
  {
    if a.Chunk() == b.Chunk() {
    } else if a.stripeSize <= a.Chunk() && a.stripeSize <= b.Chunk() {
      forall offset: nat | offset < OFFSET_LIMIT
        ensures a.Locate(offset) == b.Locate(offset)
      {
        BigChunksAlike(a, b, offset);
      }
    } else if a.Chunk() < b.Chunk() {
      ChunkSizeShows(a, b);
    } else {
      assert a == b.(placement := a.placement, chunkSize := a.chunkSize, chunks := a.chunks);
      ChunkSizeShows(b, a);
    }
  }

  /** Publishing and opening again: the reopened inode finds every offset where the writer put it. */
  lemma ReopenedAddressing(a: Addressing, b: Addressing, table: seq<ChunkMap>)
    requires a.IsStriped() && a.KeysMatch() && a.keys.Some? && |a.volumeIds| > 0
    requires AreBases(a.keys.value) && a.Shape().Aligned()
    requires forall k :: 0 <= k < |table| ==> Describes(table[k], a, k)
    requires (|a.volumeIds| - 1) * a.Shape().PerUnit() < |table|
    requires b.IsStriped() && b.volumeIds == a.volumeIds && b.Shape() == a.Shape()
    requires b.keys.Some? && |b.keys.value| == |b.volumeIds|
    requires forall v :: 0 <= v < |b.volumeIds| ==>
      b.keys.value[v] == FirstBase(table, |b.volumeIds|, b.start, b.Shape().PerUnit(), v)
    ensures LocateAlike(a, b)
  {
    PublishedTableReloads(a, table);
    assert a.keys.value == b.keys.value;
  }

  /** The same for a flat file: the table it published finds every offset where the file key does. */
  lemma FlatReopened(a: Addressing, b: Addressing, table: seq<ChunkMap>)
    requires a.placement == FLAT && a.KeysMatch() && a.chunks == [] && a.volumeId != 0 && a.fileKey != 0
    requires forall k :: 0 <= k < |table| ==> Describes(table[k], a, k)
    requires b == a.(chunks := table)
    ensures LocateAlike(a, b)
  {
    forall offset: nat | offset < OFFSET_LIMIT
      ensures a.Locate(offset) == b.Locate(offset)
    {
      DivAtMost(offset, a.Chunk());
      var idx := offset / a.Chunk();
      if idx < |table| {
        assert Describes(table[idx], a, idx);
      }
    }
  }

  /** The rebuilding code counts chunks per unit as addressing does, unless it is switched off. */
  lemma RebuildUnitAgrees(inode: Inode)
    requires |inode.volumeIds| > 0
    ensures inode.RebuildUnit() > 0 ==> inode.RebuildUnit() == inode.View().Shape().PerUnit()
    ensures inode.View().Shape().Aligned() ==> inode.RebuildUnit() > 0
  {
    var g := inode.View().Shape();
    DivUnique(g.chunk, g.chunk, 1, 0);
    if g.Aligned() {
      assert g.stripe == g.stripe / g.chunk * g.chunk;
      assert g.stripe / g.chunk > 0;
    }
  }

  /**
   * Opening a published striped file. Unless the inode holds more volumes than the layout lists, all
   * of them and the same stripe size, it finds every offset where the writer put it. If it does, it
   * keeps its own volumes and base needles.
   */
  method Reopen(inode: Inode, l: FileLayout, ghost a: Addressing)
    requires !inode.Stale(l)
    requires a.IsStriped() && a.KeysMatch() && a.keys.Some? && |a.volumeIds| > 0
    requires AreBases(a.keys.value) && a.Shape().Aligned()
    requires l.placement.Some? && StripedPlacement(l.placement.value) && l.volumeIds == a.volumeIds
    requires l.stripeSize == a.stripeSize && l.start == a.start
    requires a.chunkSize == if l.chunkSize > 0 then l.chunkSize else inode.chunkSize
    requires EC != Or(l.reliability, inode.reliability)
    requires l.chunks.Some? && forall k :: 0 <= k < |l.chunks.value| ==> Describes(l.chunks.value[k], a, k)
    requires (|a.volumeIds| - 1) * a.Shape().PerUnit() < |l.chunks.value|
    modifies inode
    ensures !old(Preserves(inode.stripeSize, inode.volumeIds, l)) ==>
      inode.View().KeysMatch() && LocateAlike(a, inode.View())
    ensures old(Preserves(inode.stripeSize, inode.volumeIds, l)) ==>
      inode.View() == old(inode.View()).(placement := l.placement.value, chunkSize := a.chunkSize, chunks := [])
  {
    inode.ApplyFresh(l);
    if !old(Preserves(inode.stripeSize, inode.volumeIds, l)) {
      RebuildUnitAgrees(inode);
      ReopenedAddressing(a, inode.View(), l.chunks.value);
    }
  }
}
